/**
 * The stored entities: a word, a named word table, and the operations on a
 * group's ordered sequence of tables that the store builds on (lookup of the
 * first table with a name, renaming one table, removing one table).
 */
module Words {

  datatype Option<T> = None | Some(value: T)

  /** One English-Chinese pair; `group` is a copy of the owning group's name. */
  datatype Word = Word(english: string, chinese: string, group: string)

  /** A named, ordered list of words. */
  datatype WordTable = WordTable(name: string, words: seq<Word>)

  /** The names used by the tables of one group. */
  function Names(tables: seq<WordTable>): set<string>
  {
    set t | t in tables :: t.name
  }

  /** No two tables of one group share a name. */
  ghost predicate UniqueNames(tables: seq<WordTable>)
  {
    forall i, j :: 0 <= i < j < |tables| ==> tables[i].name != tables[j].name
  }

  /** Position of the first table called `name`, if there is one. */
  function FindTable(tables: seq<WordTable>, name: string): (r: Option<nat>)
    ensures r.Some? ==> r.value < |tables| && tables[r.value].name == name
    ensures r.Some? ==> forall j :: 0 <= j < r.value ==> tables[j].name != name
    ensures r.None? <==> name !in Names(tables)
  {
    if tables == [] then None
    else if tables[0].name == name then Some(0)
    else
      match FindTable(tables[1..], name)
      case None => None
      case Some(i) => Some(i + 1)
  }

  /** The tables with the one at `i` renamed to `newName`. */
  function Renamed(tables: seq<WordTable>, i: nat, newName: string): (r: seq<WordTable>)
    requires i < |tables|
    ensures |r| == |tables|
    ensures r[i].name == newName && r[i].words == tables[i].words
    ensures forall j :: 0 <= j < |tables| && j != i ==> r[j] == tables[j]
  {
    tables[i := tables[i].(name := newName)]
  }

  /** The sequence without its element at `i`, the others in their order. */
  function RemoveAt<T>(s: seq<T>, i: nat): (r: seq<T>)
    requires i < |s|
    ensures |r| == |s| - 1
    ensures forall j :: 0 <= j < i ==> r[j] == s[j]
    ensures forall j :: i <= j < |r| ==> r[j] == s[j + 1]
  {
    s[..i] + s[i + 1..]
  }

  /** Appending a table under an unused name keeps the names unique. */
  lemma AppendKeepsUnique(tables: seq<WordTable>, name: string)
    requires UniqueNames(tables) && name !in Names(tables)
    ensures UniqueNames(tables + [WordTable(name, [])])
    ensures Names(tables + [WordTable(name, [])]) == Names(tables) + {name}
  {
  }

  /** Renaming one table to an unused name keeps the names unique. */
  lemma RenameKeepsUnique(tables: seq<WordTable>, i: nat, newName: string)
    requires i < |tables|
    requires UniqueNames(tables) && newName !in Names(tables)
    ensures UniqueNames(Renamed(tables, i, newName))
  {
  }

  /** Removing one table keeps the remaining names unique. */
  lemma RemoveKeepsUnique(tables: seq<WordTable>, i: nat)
    requires i < |tables|
    requires UniqueNames(tables)
    ensures UniqueNames(RemoveAt(tables, i))
  {
  }
}
