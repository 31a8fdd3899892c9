/** The IDE shell's own tab list, fed by clicks in the file explorer: picking
    a file either makes its open tab (matched by name) the active one or
    appends a new tab with the language its extension names. The shell never
    hands this list to the editor it renders, so it is state only. */
module Ide {
  import opened Wrappers
  import opened Sequences
  import FileExplorer
  import Languages
  import opened CodeEditor

  /** The text of the starting tab. */
  const WelcomeText: string := "// Welcome to the Code Editor IDE\n// This is a fully featured code editor with:\n// - Syntax highlighting\n// - File explorer\n// - Terminal\n// - Multiple language support\n\nconsole.log(\"Welcome to your new IDE!\");"

  /** One open `welcome.js` tab, active, on the dark theme. */
  function Initial(): (s: State)
    ensures |s.tabs| == 1 && s.tabs[0].id == s.active && !s.tabs[0].modified
    ensures s.theme == Dark
  {
    State([Tab("1", "welcome.js", WelcomeText, "javascript", false)], "1", Dark)
  }

  /** The header's theme button: only the theme changes. */
  function SwitchTheme(s: State): (r: State)
    ensures r.theme != s.theme && r.tabs == s.tabs && r.active == s.active
  {
    s.(theme := ToggleTheme(s.theme))
  }

  lemma SwitchThemeTwice(s: State)
    ensures SwitchTheme(SwitchTheme(s)) == s
  {
    ToggleThemeTwice(s.theme);
  }

  /** Whether a node can be opened: a file that carries content. */
  predicate Openable(node: FileExplorer.Node) {
    node.kind == FileExplorer.File && node.content.Some?
  }

  /** The tab a freshly opened node gets. */
  function TabFor(node: FileExplorer.Node, newId: string): Tab
    requires node.content.Some?
  {
    Tab(newId, node.name, node.content.value, Languages.LanguageFor(Languages.IdeTable, node.name), false)
  }

  /** Selecting `node` in the explorer; `newId` stands for the clock-derived id. */
  function SelectFile(s: State, node: FileExplorer.Node, newId: string): (r: State)
    ensures !Openable(node) ==> r == s
    ensures r.theme == s.theme
    ensures Openable(node) && Holds(s.tabs, ByName, node.name) ==>
      r.tabs == s.tabs && r.active == s.tabs[IndexOf(s.tabs, ByName, node.name)].id
    ensures Openable(node) && !Holds(s.tabs, ByName, node.name) ==>
      r.tabs == s.tabs + [Tab(newId, node.name, node.content.value, Languages.LanguageFor(Languages.IdeTable, node.name), false)] &&
      r.active == newId
  {
    IndexOfFinds(s.tabs, ByName, node.name);
    if Openable(node) then
      var i := IndexOf(s.tabs, ByName, node.name);
      if i < |s.tabs| then s.(active := s.tabs[i].id)
      else Open(s, TabFor(node, newId))
    else s
  }

  /** Selecting the same node again changes nothing, whatever id it is offered. */
  lemma SelectTwice(s: State, node: FileExplorer.Node, id1: string, id2: string)
    ensures SelectFile(SelectFile(s, node, id1), node, id2) == SelectFile(s, node, id1)
  {
    var r := SelectFile(s, node, id1);
    if Openable(node) && !Holds(s.tabs, ByName, node.name) {
      var t := TabFor(node, id1);
      assert r.tabs == s.tabs + [t];
      assert Holds(r.tabs, ByName, node.name) by {
        assert Key(r.tabs[|s.tabs|], ByName) == node.name;
      }
      IndexOfAppend(s.tabs, t, ByName);
    }
  }

  /** A tab appended after tabs without its key is the first to carry it. */
  lemma {:induction false} IndexOfAppend(tabs: seq<Tab>, t: Tab, field: Field)
    requires !Holds(tabs, field, Key(t, field))
    ensures IndexOf(tabs + [t], field, Key(t, field)) == |tabs|
  {
    IndexOfFinds(tabs, field, Key(t, field));
    assert forall k :: 0 <= k < |tabs| ==> (tabs + [t])[k] == tabs[k];
    assert (tabs + [t])[|tabs|] == t;
    IndexOfPast(tabs + [t], field, Key(t, field), |tabs|);
  }

  /** When no tab before `i` carries `key` and tab `i` does, `IndexOf` is `i`. */
  lemma {:induction false} IndexOfPast(tabs: seq<Tab>, field: Field, key: string, i: nat)
    requires i < |tabs| && Key(tabs[i], field) == key
    requires forall k :: 0 <= k < i ==> Key(tabs[k], field) != key
    ensures IndexOf(tabs, field, key) == i
  {
    if i > 0 {
      assert forall k :: 0 <= k < i - 1 ==> tabs[1..][k] == tabs[k + 1];
      IndexOfPast(tabs[1..], field, key, i - 1);
    }
  }

  /** Afterwards the active tab of the shell's list is the selected file, given
      distinct ids and a fresh `newId`. */
  lemma SelectActivatesFile(s: State, node: FileExplorer.Node, newId: string)
    requires Valid(s) && !Holds(s.tabs, ById, newId)
    requires Openable(node)
    ensures ActiveTab(SelectFile(s, node, newId)).Some?
    ensures ActiveTab(SelectFile(s, node, newId)).value.name == node.name
  {
    var r := SelectFile(s, node, newId);
    if Holds(s.tabs, ByName, node.name) {
      var i := IndexOf(s.tabs, ByName, node.name);
      IndexOfFinds(s.tabs, ByName, node.name);
      var j := IndexOf(s.tabs, ById, s.tabs[i].id);
      assert Key(s.tabs[i], ById) == s.tabs[i].id;
      assert j <= i;
      assert Keys(s.tabs, ById)[j] == Keys(s.tabs, ById)[i];
    }
  }

  /** Names of the open tabs are distinct. */
  ghost predicate DistinctNames(s: State) {
    NoDuplicates(Keys(s.tabs, ByName))
  }

  /** Selection never opens a second tab with a name already open. */
  lemma SelectKeepsNamesDistinct(s: State, node: FileExplorer.Node, newId: string)
    requires DistinctNames(s)
    ensures DistinctNames(SelectFile(s, node, newId))
  {
    if Openable(node) && !Holds(s.tabs, ByName, node.name) {
      AppendKeepsDistinct(s.tabs, TabFor(node, newId), ByName);
    }
  }

  /** Selection keeps the editor invariant when `newId` is fresh. */
  lemma SelectValid(s: State, node: FileExplorer.Node, newId: string)
    requires Valid(s) && !Holds(s.tabs, ById, newId)
    ensures Valid(SelectFile(s, node, newId))
  {
    if Openable(node) {
      if Holds(s.tabs, ByName, node.name) {
        var i := IndexOf(s.tabs, ByName, node.name);
        IndexOfFinds(s.tabs, ByName, node.name);
        assert Key(s.tabs[i], ById) == s.tabs[i].id;
      } else {
        OpenValid(s, TabFor(node, newId));
      }
    }
  }

  /** A new tab from the explorer is the tab an upload of the same file would
      open: the two tables give every name the same language. */
  lemma SelectMatchesUpload(s: State, node: FileExplorer.Node, newId: string)
    requires Openable(node) && !Holds(s.tabs, ByName, node.name)
    ensures SelectFile(s, node, newId) == Upload(s, Some(Picked(node.name, node.content.value)), newId)
  {
    Languages.TablesAgree();
  }

  /** One explorer click together with the id the clock would give it. */
  datatype Pick = Pick(node: FileExplorer.Node, newId: string)

  function SelectAll(s: State, picks: seq<Pick>): State
    decreases |picks|
  {
    if picks == [] then s
    else SelectAll(SelectFile(s, picks[0].node, picks[0].newId), picks[1..])
  }

  /** However many files are picked, the open names stay distinct. */
  lemma {:induction false} SelectAllKeepsNamesDistinct(s: State, picks: seq<Pick>)
    requires DistinctNames(s)
    ensures DistinctNames(SelectAll(s, picks))
    decreases |picks|
  {
    if picks != [] {
      SelectKeepsNamesDistinct(s, picks[0].node, picks[0].newId);
      SelectAllKeepsNamesDistinct(SelectFile(s, picks[0].node, picks[0].newId), picks[1..]);
    }
  }

  lemma InitialNamesDistinct()
    ensures DistinctNames(Initial())
  {
    var names := Keys(Initial().tabs, ByName);
    assert |names| == 1;
  }

  // ---------------------------------------------------------------------------
  // A click in the explorer

  /** The explorer's tree together with the IDE's tabs. */
  datatype Workspace = Workspace(tree: seq<FileExplorer.Node>, editor: State)

  /** A folder click toggles the folder; any other click selects the node. */
  function Click(w: Workspace, node: FileExplorer.Node, newId: string): (r: Workspace)
    ensures node.kind == FileExplorer.Folder ==> r.editor == w.editor && r.tree == FileExplorer.Toggle(w.tree, node.id)
    ensures node.kind == FileExplorer.File ==> r.tree == w.tree && r.editor == SelectFile(w.editor, node, newId)
  {
    if node.kind == FileExplorer.Folder then w.(tree := FileExplorer.Toggle(w.tree, node.id))
    else w.(editor := SelectFile(w.editor, node, newId))
  }
}
