/**
 * `find_todos_in_schdoc` and `search_todos_in_directory` from Altium_TODO/Altium_TODO.py:
 * the TODO entries of one schematic document, and of every `.SchDoc` file a directory
 * walk yields, in walk order. Reading a file and walking the directory are I/O: a file
 * comes in as its name and its content, None when it cannot be read.
 */
module AltiumTodo {
  import opened Wrappers
  import opened Strings
  import opened TodoPattern
  import opened TodoText

  /** One reported TODO: file name, TODO text, cleaned description and its colour. */
  datatype TodoEntry = TodoEntry(file: string, todo: string, description: string, color: Color)

  /** A file met by the directory walk: its base name and its content (None when reading fails). */
  datatype WalkedFile = WalkedFile(name: string, content: Option<string>)

  /** The entry the script appends for match `m` of file `file`. */
  function EntryOf(file: string, m: Match): TodoEntry {
    TodoEntry(file, m.todo, CleanDescription(m.description), DescriptionColor(m.todo))
  }

  /** An entry as every match produces it: its TODO text, description and colour obey the script's rules. */
  predicate WellFormedEntry(e: TodoEntry) {
    && IsTodoText(e.todo)
    && '~' !in e.description && '|' !in e.description
    && NoLineStartsWithDigit(e.description)
    && (e.color == Cyan <==> '_' in e.todo)
  }

  /** The entries of one file: one per match of the pattern, in order; none for an unreadable file. */
  function FileTodos(file: string, content: Option<string>): (ts: seq<TodoEntry>)
    ensures content.None? ==> ts == []
    ensures content.Some? ==> |ts| == |FindAll(content.value)|
    ensures forall i :: 0 <= i < |ts| ==> ts[i].file == file && WellFormedEntry(ts[i])
  {
    match content
    case None => []
    case Some(text) =>
      var ms := FindAll(text);
      var ts := seq(|ms|, i requires 0 <= i < |ms| => EntryOf(file, ms[i]));
      assert forall i :: 0 <= i < |ts| ==> WellFormedEntry(ts[i]) by {
        FindAllSound(text);
        forall i | 0 <= i < |ts| ensures WellFormedEntry(ts[i]) {
          EntryWellFormed(file, text, ms[i]);
        }
      }
      ts
  }

  /** A match of the pattern yields a well-formed entry. */
  lemma EntryWellFormed(file: string, text: string, m: Match)
    requires m.start <= |text| && MatchAt(text, m.start) == Some(m)
    ensures WellFormedEntry(EntryOf(file, m))
  {
    MatchAtGroups(text, m.start);
    CleanDescriptionProperties(m.description);
    var d := CleanDescription(m.description);
    SubsequenceChars(d, ReplaceTilde(m.description));
    forall i | 0 <= i < |m.description| ensures ReplaceTilde(m.description)[i] != '|' {
      ReplaceTildeAt(m.description, i);
    }
  }

  /** `find_todos_in_schdoc`: walk the matches and append one entry each. */
  method FindTodosInSchDoc(file: string, content: Option<string>) returns (todos: seq<TodoEntry>)
    ensures todos == FileTodos(file, content)
  {
    todos := [];
    if content.None? {
      return;
    }
    var matches := FindAll(content.value);
    for k := 0 to |matches|
      invariant |todos| == k
      invariant forall i :: 0 <= i < k ==> todos[i] == EntryOf(file, matches[i])
    {
      todos := todos + [EntryOf(file, matches[k])];
    }
    ghost var expected := FileTodos(file, content);
    assert |expected| == |todos|;
    assert forall i :: 0 <= i < |todos| ==> expected[i] == todos[i];
  }

  /** The entries one walked file contributes: those of a `.SchDoc` file, none for any other file. */
  function SchDocTodos(f: WalkedFile): seq<TodoEntry> {
    if EndsWith(f.name, ".SchDoc") then FileTodos(f.name, f.content) else []
  }

  /** The entries of each walked file, file by file, in walk order. */
  function PerFile(files: seq<WalkedFile>): (tss: seq<seq<TodoEntry>>)
    ensures |tss| == |files|
  {
    seq(|files|, i requires 0 <= i < |files| => SchDocTodos(files[i]))
  }

  /** The lists of `tss` joined one after the other, as repeated `extend` builds them. */
  function Flatten(tss: seq<seq<TodoEntry>>): seq<TodoEntry> {
    if tss == [] then [] else Flatten(tss[..|tss| - 1]) + tss[|tss| - 1]
  }

  lemma {:induction false} FlattenAppend(xss: seq<seq<TodoEntry>>, yss: seq<seq<TodoEntry>>)
    ensures Flatten(xss + yss) == Flatten(xss) + Flatten(yss)
    decreases |yss|
  {
    if yss == [] {
      assert xss + yss == xss;
    } else {
      var n := |yss| - 1;
      assert (xss + yss)[..|xss + yss| - 1] == xss + yss[..n];
      FlattenAppend(xss, yss[..n]);
    }
  }

  /** Every element of `Flatten(tss)` is an element of one of the lists in `tss`. */
  lemma {:induction false} FlattenFrom(tss: seq<seq<TodoEntry>>, i: nat)
    requires i < |Flatten(tss)|
    ensures exists j, k :: 0 <= j < |tss| && 0 <= k < |tss[j]| && Flatten(tss)[i] == tss[j][k]
    decreases |tss|
  {
    var n := |tss| - 1;
    var front := Flatten(tss[..n]);
    if i < |front| {
      FlattenFrom(tss[..n], i);
      var j, k :| 0 <= j < n && 0 <= k < |tss[..n][j]| && front[i] == tss[..n][j][k];
      assert Flatten(tss)[i] == tss[j][k];
    } else {
      assert Flatten(tss)[i] == tss[n][i - |front|];
    }
  }

  /** The entries of every `.SchDoc` file among `files`, concatenated in walk order. */
  function AllTodos(files: seq<WalkedFile>): seq<TodoEntry> {
    Flatten(PerFile(files))
  }

  /** Every entry of the search comes from a `.SchDoc` file and is well formed. */
  lemma AllTodosWellFormed(files: seq<WalkedFile>, i: nat)
    requires i < |AllTodos(files)|
    ensures EndsWith(AllTodos(files)[i].file, ".SchDoc") && WellFormedEntry(AllTodos(files)[i])
  {
    FlattenFrom(PerFile(files), i);
    var j, k :| 0 <= j < |files| && 0 <= k < |PerFile(files)[j]| && AllTodos(files)[i] == PerFile(files)[j][k];
    var f := files[j];
    assert PerFile(files)[j] == SchDocTodos(f);
    assert EndsWith(f.name, ".SchDoc");
  }

  /** The walk order is kept: the entries of two runs of files are those of each run, one after the other. */
  lemma AllTodosAppend(a: seq<WalkedFile>, b: seq<WalkedFile>)
    ensures AllTodos(a + b) == AllTodos(a) + AllTodos(b)
  {
    assert PerFile(a + b) == PerFile(a) + PerFile(b);
    FlattenAppend(PerFile(a), PerFile(b));
  }

  /** `search_todos_in_directory`, given the files of the walk in walk order. */
  method SearchTodosInDirectory(files: seq<WalkedFile>) returns (allTodos: seq<TodoEntry>)
    ensures allTodos == AllTodos(files)
  {
    allTodos := [];
    for k := 0 to |files|
      invariant allTodos == AllTodos(files[..k])
    {
      var f := files[k];
      ghost var before := allTodos;
      if EndsWith(f.name, ".SchDoc") {
        var todos := FindTodosInSchDoc(f.name, f.content);
        if todos != [] {
          allTodos := allTodos + todos;
        }
      }
      assert allTodos == before + SchDocTodos(f);
      assert PerFile(files[..k + 1]) == PerFile(files[..k]) + [SchDocTodos(f)];
    }
    assert files[..|files|] == files;
  }
}
