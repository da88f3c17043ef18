/**
 * The application state behind the window: the store plus which group and
 * which table are selected, the rename boxes and the last message. Each
 * method is one user action of the frame handler, with drawing and input
 * decoding left to the caller.
 */
module App {
  import opened Words
  import opened Naming
  import opened Store
  import opened Text

  /** Base name of a group made by the "+" button. */
  const NewGroupBase: string := "新分组"
  /** Name requested for a table made from the group's context menu. */
  const NewTableName: string := "新单词表"

  class FlashMemoryApp {
    var store: FlashMemory
    var currentGroup: Option<string>
    var currentWordTable: Option<string>
    var renamingGroupActive: bool
    var renamingInput: string
    var renamingWordTableActive: bool
    var renamingWordTableInput: string
    var message: string

    /** The selected group, if any, exists in the store. */
    ghost predicate SelectionValid()
      reads this, store
    {
      currentGroup.Some? ==> currentGroup.value in store.groups
    }

    /** Start-up state around a store (loaded from disk, or empty when loading failed). */
    constructor (store: FlashMemory)
      ensures this.store == store
      ensures currentGroup == None && currentWordTable == None
      ensures !renamingGroupActive && !renamingWordTableActive
      ensures renamingInput == "" && renamingWordTableInput == "" && message == ""
      ensures SelectionValid()
    {
      this.store := store;
      currentGroup := None;
      currentWordTable := None;
      renamingGroupActive := false;
      renamingInput := "";
      renamingWordTableActive := false;
      renamingWordTableInput := "";
      message := "";
    }

    /**
     * The "+" button: creates the first of 新分组, 新分组2, 新分组3, ... that
     * is not a group yet, selects it and opens its rename box.
     */
    method NewGroup() returns (ghost k: nat)
      modifies this, store
      ensures store == old(store)
      ensures FirstFree(NewGroupBase, old(store.groups).Keys, k)
      ensures Candidate(NewGroupBase, k) !in old(store.groups)
      ensures store.groups == old(store.groups)[Candidate(NewGroupBase, k) := []]
      ensures currentGroup == Some(Candidate(NewGroupBase, k))
      ensures currentWordTable == old(currentWordTable)
      ensures renamingGroupActive && renamingInput == Candidate(NewGroupBase, k)
      ensures renamingWordTableActive == old(renamingWordTableActive)
      ensures renamingWordTableInput == old(renamingWordTableInput)
      ensures message == "已创建新分组，可直接重命名"
      ensures SelectionValid()
      ensures AllUnique(old(store.groups)) ==> AllUnique(store.groups)
    {
      var name, idx := FirstFreeName(NewGroupBase, store.groups.Keys);
      k := idx;
      store.CreateGroupIfAbsent(name);
      SameOutsideUpdate(old(store.groups), store.groups, name);
      currentGroup := Some(name);
      renamingGroupActive := true;
      renamingInput := name;
      message := "已创建新分组，可直接重命名";
    }

    /**
     * Confirming the rename box of the selected group. A blank name is
     * refused before the store is asked; a successful rename selects the
     * new name; a refused one leaves store and selection as they were.
     */
    method CommitGroupRename()
      requires currentGroup.Some?
      modifies this, store
      ensures store == old(store)
      ensures !renamingGroupActive
      ensures currentWordTable == old(currentWordTable)
      ensures renamingInput == old(renamingInput)
      ensures renamingWordTableActive == old(renamingWordTableActive)
      ensures renamingWordTableInput == old(renamingWordTableInput)
      ensures AllWhitespace(old(renamingInput)) ==>
        && store.groups == old(store.groups)
        && currentGroup == old(currentGroup)
        && message == "分组名不能为空"
      ensures !AllWhitespace(old(renamingInput)) ==>
        var from, newName := old(currentGroup).value, Trim(old(renamingInput));
        var r := GroupRenameResult(old(store.groups), from, newName);
        && store.groups == GroupsAfterGroupRename(old(store.groups), from, newName)
        && currentGroup == (if r == Ok then Some(newName) else old(currentGroup))
        && message == (if r == Ok then "分组已重命名" else Message(r.error))
      ensures old(SelectionValid()) ==> SelectionValid()
      ensures AllUnique(old(store.groups)) ==> AllUnique(store.groups)
    {
      var newName := Trim(renamingInput);
      if newName == [] {
        message := "分组名不能为空";
        renamingGroupActive := false;
      } else {
        var r := store.RenameGroup(currentGroup.value, newName);
        match r
        case Ok =>
          currentGroup := Some(newName);
          renamingGroupActive := false;
          message := "分组已重命名";
        case Err(e) =>
          message := Message(e);
          renamingGroupActive := false;
      }
    }

    /**
     * Confirming the rename box of the selected table in the selected
     * group. A blank name is refused; a successful rename selects the new
     * table name; a refused one changes neither the store nor the selection.
     */
    method CommitTableRename()
      requires currentGroup.Some? && currentWordTable.Some?
      modifies this, store
      ensures store == old(store)
      ensures !renamingWordTableActive
      ensures currentGroup == old(currentGroup)
      ensures renamingGroupActive == old(renamingGroupActive)
      ensures renamingInput == old(renamingInput)
      ensures renamingWordTableInput == old(renamingWordTableInput)
      ensures store.groups.Keys == old(store.groups).Keys
      ensures AllWhitespace(old(renamingWordTableInput)) ==>
        && store.groups == old(store.groups)
        && currentWordTable == old(currentWordTable)
        && message == "单词表名不能为空"
      ensures !AllWhitespace(old(renamingWordTableInput)) ==>
        var group, table := old(currentGroup).value, old(currentWordTable).value;
        var newName := Trim(old(renamingWordTableInput));
        var r := TableRenameResult(old(store.groups), group, table, newName);
        && store.groups == GroupsAfterTableRename(old(store.groups), group, table, newName)
        && currentWordTable == (if r == Ok then Some(newName) else old(currentWordTable))
        && message == (if r == Ok then "单词表已重命名" else Message(r.error))
      ensures old(SelectionValid()) ==> SelectionValid()
      ensures AllUnique(old(store.groups)) ==> AllUnique(store.groups)
    {
      var newName := Trim(renamingWordTableInput);
      if newName == [] {
        message := "单词表名不能为空";
        renamingWordTableActive := false;
      } else {
        var r := store.RenameWordTable(currentGroup.value, currentWordTable.value, newName);
        match r
        case Ok =>
          currentWordTable := Some(newName);
          renamingWordTableActive := false;
          message := "单词表已重命名";
        case Err(e) =>
          message := Message(e);
          renamingWordTableActive := false;
      }
    }

    /**
     * "新建单词表" in a group's context menu: creates a table (suffixed when
     * the name is taken), selects the group and opens the rename box. The
     * selected table name is the requested name, not the suffixed one.
     */
    method NewWordTable(group: string) returns (ghost k: nat)
      modifies this, store
      ensures store == old(store)
      ensures group in store.groups
      ensures FirstFree(NewTableName, Names(TablesOf(old(store.groups), group)), k)
      ensures store.groups[group] ==
        TablesOf(old(store.groups), group) + [WordTable(Candidate(NewTableName, k), [])]
      ensures SameOutside(old(store.groups), store.groups, group)
      ensures currentGroup == Some(group)
      ensures currentWordTable == Some(NewTableName)
      ensures renamingWordTableActive && renamingWordTableInput == NewTableName
      ensures renamingGroupActive == old(renamingGroupActive)
      ensures renamingInput == old(renamingInput)
      ensures message == "已创建新单词表，可直接重命名"
      ensures SelectionValid()
      ensures AllUnique(old(store.groups)) ==> AllUnique(store.groups)
    {
      k := store.CreateWordTable(group, NewTableName);
      currentGroup := Some(group);
      currentWordTable := Some(NewTableName);
      renamingWordTableActive := true;
      renamingWordTableInput := NewTableName;
      message := "已创建新单词表，可直接重命名";
    }

    /**
     * "删除分组" in a group's context menu. Deleting the selected group
     * clears both the group and the table selection.
     */
    method DeleteGroup(group: string)
      modifies this, store
      ensures store == old(store)
      ensures store.groups == old(store.groups) - {group}
      ensures group in old(store.groups) ==> message == "分组已删除"
      ensures group !in old(store.groups) ==> message == Message(GroupMissing)
      ensures group in old(store.groups) && old(currentGroup) == Some(group) ==>
        currentGroup == None && currentWordTable == None
      ensures !(group in old(store.groups) && old(currentGroup) == Some(group)) ==>
        currentGroup == old(currentGroup) && currentWordTable == old(currentWordTable)
      ensures renamingGroupActive == old(renamingGroupActive)
      ensures renamingInput == old(renamingInput)
      ensures renamingWordTableActive == old(renamingWordTableActive)
      ensures renamingWordTableInput == old(renamingWordTableInput)
      ensures old(SelectionValid()) ==> SelectionValid()
      ensures AllUnique(old(store.groups)) ==> AllUnique(store.groups)
    {
      var r := store.DeleteGroup(group);
      match r
      case Ok =>
        if currentGroup == Some(group) {
          currentGroup := None;
          currentWordTable := None;
        }
        message := "分组已删除";
      case Err(e) =>
        message := Message(e);
    }

    /**
     * "删除" in a table's context menu. When a table is deleted whose name is
     * the selected table name, the table selection is cleared; the group of
     * the selection is not compared.
     */
    method DeleteWordTable(group: string, tableName: string)
      modifies this, store
      ensures store == old(store)
      ensures store.groups.Keys == old(store.groups).Keys
      ensures store.groups == GroupsAfterTableDelete(old(store.groups), group, tableName)
      ensures var r := TableDeleteResult(old(store.groups), group, tableName);
        && message == (if r == Ok then "单词表已删除" else Message(r.error))
        && currentWordTable == (if r == Ok && old(currentWordTable) == Some(tableName) then None
                                else old(currentWordTable))
      ensures currentGroup == old(currentGroup)
      ensures renamingGroupActive == old(renamingGroupActive)
      ensures renamingInput == old(renamingInput)
      ensures renamingWordTableActive == old(renamingWordTableActive)
      ensures renamingWordTableInput == old(renamingWordTableInput)
      ensures old(SelectionValid()) ==> SelectionValid()
      ensures AllUnique(old(store.groups)) ==> AllUnique(store.groups)
    {
      var r := store.DeleteWordTable(group, tableName);
      match r
      case Ok =>
        if currentWordTable == Some(tableName) {
          currentWordTable := None;
        }
        message := "单词表已删除";
      case Err(e) =>
        message := Message(e);
    }

    /**
     * A click on a group's label: the selected group collapses, any other
     * group becomes selected; either way no table stays selected.
     */
    method ClickGroup(group: string)
      requires group in store.groups
      modifies this
      ensures store == old(store) && store.groups == old(store.groups)
      ensures currentGroup == (if old(currentGroup) == Some(group) then None else Some(group))
      ensures currentWordTable == None
      ensures renamingGroupActive == old(renamingGroupActive)
      ensures renamingInput == old(renamingInput)
      ensures renamingWordTableActive == old(renamingWordTableActive)
      ensures renamingWordTableInput == old(renamingWordTableInput)
      ensures message == old(message)
      ensures SelectionValid()
    {
      if currentGroup == Some(group) {
        currentGroup := None;
        currentWordTable := None;
      } else {
        currentGroup := Some(group);
        currentWordTable := None;
      }
    }
  }
}

/**
 * A client of the application state: a second "+" gives 新分组2; a second
 * new table in the same group is stored as 新单词表2 while the selection
 * still names 新单词表; deleting the selected group clears the selection.
 */
module AppScenario {
  import opened Words
  import opened Naming
  import opened Store
  import opened App

  lemma SecondAttempts()
    ensures FirstFree(NewGroupBase, {}, 1)
    ensures FirstFree(NewGroupBase, {NewGroupBase}, 2) && Candidate(NewGroupBase, 2) == "新分组2"
    ensures FirstFree(NewTableName, {}, 1)
    ensures FirstFree(NewTableName, {NewTableName}, 2) && Candidate(NewTableName, 2) == "新单词表2"
    ensures Names([WordTable(NewTableName, [])]) == {NewTableName}
  {
    assert Decimal(2) == "2";
  }

  method SelectionScenario()
  {
    var store := new FlashMemory();
    var app := new FlashMemoryApp(store);
    SecondAttempts();
    ghost var g1 := app.NewGroup();
    FirstFreeUnique(NewGroupBase, {}, g1, 1);
    assert app.store.groups.Keys == {NewGroupBase};
    ghost var g2 := app.NewGroup();
    FirstFreeUnique(NewGroupBase, {NewGroupBase}, g2, 2);
    assert app.currentGroup == Some("新分组2");

    ghost var t1 := app.NewWordTable("新分组2");
    FirstFreeUnique(NewTableName, {}, t1, 1);
    ghost var t2 := app.NewWordTable("新分组2");
    FirstFreeUnique(NewTableName, {NewTableName}, t2, 2);
    assert app.store.groups["新分组2"][1].name == "新单词表2";
    assert app.currentWordTable == Some("新单词表");

    app.DeleteGroup("新分组2");
    assert app.currentGroup == None && app.currentWordTable == None;
    assert app.store.groups.Keys == {NewGroupBase};
  }
}
