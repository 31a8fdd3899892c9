/** The editor's tab list: a sequence of open files and the id of the active
    one, with the state changes of typing, new file, close, save, upload and
    tab selection, and the colour theme switch. */
module CodeEditor {
  import opened Wrappers
  import opened Sequences
  import Languages

  datatype Tab = Tab(id: string, name: string, content: string, language: string, modified: bool)

  datatype Theme = Dark | Light

  datatype State = State(tabs: seq<Tab>, active: string, theme: Theme)

  /** One open `main.js` tab, active, on the dark theme. */
  function Initial(): (s: State)
    ensures |s.tabs| == 1 && s.tabs[0].id == s.active && !s.tabs[0].modified
    ensures s.theme == Dark
  {
    State([Tab("1", "main.js", "// Welcome to the Code Editor\nconsole.log(\"Hello, World!\");", "javascript", false)], "1", Dark)
  }

  /** The switch between dark and light. */
  function ToggleTheme(t: Theme): (r: Theme)
    ensures r != t
  {
    if t == Dark then Light else Dark
  }

  lemma ToggleThemeTwice(t: Theme)
    ensures ToggleTheme(ToggleTheme(t)) == t
  {
  }

  // ---------------------------------------------------------------------------
  // Looking tabs up

  /** Tabs are looked up by id (the active tab) or by name (opening a file). */
  datatype Field = ById | ByName

  function Key(t: Tab, field: Field): string {
    match field
    case ById => t.id
    case ByName => t.name
  }

  /** The position of the first tab whose `field` is `key`; `|tabs|` when
      there is none. */
  function IndexOf(tabs: seq<Tab>, field: Field, key: string): (i: nat)
    ensures i <= |tabs|
    ensures i < |tabs| ==> Key(tabs[i], field) == key
    ensures forall k :: 0 <= k < i ==> Key(tabs[k], field) != key
  {
    if tabs == [] then 0
    else if Key(tabs[0], field) == key then 0
    else 1 + IndexOf(tabs[1..], field, key)
  }

  /** Some tab's `field` is `key`. */
  predicate Holds(tabs: seq<Tab>, field: Field, key: string) {
    exists k :: 0 <= k < |tabs| && Key(tabs[k], field) == key
  }

  lemma IndexOfFinds(tabs: seq<Tab>, field: Field, key: string)
    ensures IndexOf(tabs, field, key) < |tabs| <==> Holds(tabs, field, key)
  {
  }

  /** The tab shown in the editor: the first whose id is the active id. */
  function ActiveTab(s: State): (r: Option<Tab>)
    ensures r.Some? <==> Holds(s.tabs, ById, s.active)
    ensures r.Some? ==> r.value in s.tabs && r.value.id == s.active
  {
    var i := IndexOf(s.tabs, ById, s.active);
    IndexOfFinds(s.tabs, ById, s.active);
    if i < |s.tabs| then Some(s.tabs[i]) else None
  }

  /** The `field` of every tab, in tab order. */
  function Keys(tabs: seq<Tab>, field: Field): seq<string> {
    seq(|tabs|, k requires 0 <= k < |tabs| => Key(tabs[k], field))
  }

  /** Ids are distinct, and whenever a tab is open the active id names one. */
  ghost predicate Valid(s: State) {
    NoDuplicates(Keys(s.tabs, ById)) && (s.tabs != [] ==> Holds(s.tabs, ById, s.active))
  }

  lemma InitialValid()
    ensures Valid(Initial())
  {
    assert Initial().tabs[0].id == "1";
  }

  // ---------------------------------------------------------------------------
  // Changing the tabs that carry one id

  datatype Change = Write(content: string) | MarkSaved

  function ChangeTab(t: Tab, c: Change): Tab {
    match c
    case Write(v) => t.(content := v, modified := true)
    case MarkSaved => t.(modified := false)
  }

  /** `tabs` with every tab whose id is `id` changed by `c`. */
  function Update(tabs: seq<Tab>, id: string, c: Change): seq<Tab> {
    seq(|tabs|, k requires 0 <= k < |tabs| => if tabs[k].id == id then ChangeTab(tabs[k], c) else tabs[k])
  }

  lemma UpdateKeepsIds(tabs: seq<Tab>, id: string, c: Change)
    ensures Keys(Update(tabs, id, c), ById) == Keys(tabs, ById)
    ensures forall field, key :: Holds(Update(tabs, id, c), field, key) <==> Holds(tabs, field, key)
  {
    var r := Update(tabs, id, c);
    forall field, key ensures Holds(r, field, key) <==> Holds(tabs, field, key) {
      assert forall k :: 0 <= k < |tabs| ==> Key(r[k], field) == Key(tabs[k], field);
    }
  }

  /** Typing in the editor: the new text replaces the content of the active
      tab and marks it modified. An empty or missing value, or no active id,
      changes nothing. */
  function Edit(s: State, value: Option<string>): (r: State)
    ensures value.None? || value == Some("") || s.active == "" ==> r == s
    ensures r.active == s.active && r.theme == s.theme && |r.tabs| == |s.tabs|
    ensures value.Some? && value.value != "" && s.active != "" ==>
      forall k :: 0 <= k < |s.tabs| ==>
        r.tabs[k] == if s.tabs[k].id == s.active then s.tabs[k].(content := value.value, modified := true) else s.tabs[k]
  {
    if value.None? || value.value == "" || s.active == "" then s
    else s.(tabs := Update(s.tabs, s.active, Write(value.value)))
  }

  /** The active tab afterwards shows exactly the typed text, marked modified. */
  lemma EditReadsBack(s: State, v: string)
    requires v != "" && s.active != ""
    requires ActiveTab(s).Some?
    ensures ActiveTab(Edit(s, Some(v))) == Some(ActiveTab(s).value.(content := v, modified := true))
  {
    var r := Edit(s, Some(v));
    var i := IndexOf(s.tabs, ById, s.active);
    assert IndexOf(r.tabs, ById, r.active) == i by {
      IndexOfUpdate(s.tabs, s.active, Write(v), ById, s.active);
    }
  }

  /** Changing tabs does not move the first tab carrying any key. */
  lemma {:induction false} IndexOfUpdate(tabs: seq<Tab>, id: string, c: Change, field: Field, key: string)
    ensures IndexOf(Update(tabs, id, c), field, key) == IndexOf(tabs, field, key)
  {
    if tabs != [] {
      assert Update(tabs, id, c)[1..] == Update(tabs[1..], id, c);
      IndexOfUpdate(tabs[1..], id, c, field, key);
    }
  }

  /** The tab-bar "save": nothing without an active tab, otherwise the active
      tab is marked unmodified. The download itself is not part of this model. */
  function Save(s: State): (r: State)
    ensures ActiveTab(s).None? ==> r == s
    ensures r.active == s.active && r.theme == s.theme && |r.tabs| == |s.tabs|
    ensures forall k :: 0 <= k < |s.tabs| ==>
      r.tabs[k].content == s.tabs[k].content && r.tabs[k].id == s.tabs[k].id && r.tabs[k].name == s.tabs[k].name
    ensures forall k :: 0 <= k < |s.tabs| && s.tabs[k].id != s.active ==> r.tabs[k] == s.tabs[k]
    ensures ActiveTab(s).Some? ==> ActiveTab(r) == Some(ActiveTab(s).value.(modified := false))
  {
    if ActiveTab(s).None? then s
    else
      IndexOfUpdate(s.tabs, s.active, MarkSaved, ById, s.active);
      s.(tabs := Update(s.tabs, s.active, MarkSaved))
  }

  lemma SaveTwice(s: State)
    ensures Save(Save(s)) == Save(s)
  {
    var r := Save(s);
    if ActiveTab(s).Some? {
      assert Save(r).tabs == r.tabs;
    }
  }

  /** Typing then saving leaves the typed text in place, no longer modified. */
  lemma SaveKeepsEdit(s: State, v: string)
    requires v != "" && s.active != ""
    requires ActiveTab(s).Some?
    ensures ActiveTab(Save(Edit(s, Some(v)))) == Some(ActiveTab(s).value.(content := v, modified := false))
  {
    EditReadsBack(s, v);
  }

  // ---------------------------------------------------------------------------
  // Opening and closing tabs

  /** Append `t` and make it the active tab. */
  function Open(s: State, t: Tab): (r: State)
    ensures r.tabs == s.tabs + [t] && r.active == t.id && r.theme == s.theme
    ensures !Holds(s.tabs, ById, t.id) ==> ActiveTab(r) == Some(t)
  {
    var r := s.(tabs := s.tabs + [t], active := t.id);
    assert r.tabs[|s.tabs|] == t;
    r
  }

  function Untitled(id: string): Tab {
    Tab(id, "untitled.js", "", "javascript", false)
  }

  /** The "new file" button; `newId` stands for the clock-derived id. */
  function NewTab(s: State, newId: string): (r: State)
    ensures r.tabs == s.tabs + [Tab(newId, "untitled.js", "", "javascript", false)]
    ensures r.active == newId
  {
    Open(s, Untitled(newId))
  }

  /** A file picked in the upload dialog: its name and text. */
  datatype Picked = Picked(name: string, content: string)

  /** The upload handler: no file changes nothing; otherwise a tab with the
      file's name, text and language is appended, unmodified, and activated. */
  function Upload(s: State, file: Option<Picked>, newId: string): (r: State)
    ensures file.None? ==> r == s
    ensures file.Some? ==> r.active == newId && |r.tabs| == |s.tabs| + 1 && r.tabs[..|s.tabs|] == s.tabs
    ensures file.Some? ==> (r.tabs[|s.tabs|] ==
      Tab(newId, file.value.name, file.value.content, Languages.LanguageFor(Languages.EditorTable, file.value.name), false))
  {
    match file
    case None => s
    case Some(f) =>
      var r := Open(s, Tab(newId, f.name, f.content, Languages.LanguageFor(Languages.EditorTable, f.name), false));
      assert r.tabs[..|s.tabs|] == s.tabs;
      r
  }

  /** `tabs` without the tabs whose id is `id`, the rest in order. */
  function Without(tabs: seq<Tab>, id: string): (r: seq<Tab>)
    ensures forall k :: 0 <= k < |r| ==> r[k].id != id
    ensures |r| <= |tabs|
  {
    if tabs == [] then []
    else if tabs[0].id == id then Without(tabs[1..], id)
    else [tabs[0]] + Without(tabs[1..], id)
  }

  /** The tabs kept are exactly those whose id is not `id`. */
  lemma {:induction false} WithoutMembers(tabs: seq<Tab>, id: string, t: Tab)
    ensures t in Without(tabs, id) <==> t in tabs && t.id != id
  {
    if tabs != [] {
      WithoutMembers(tabs[1..], id, t);
      assert tabs == [tabs[0]] + tabs[1..];
    }
  }

  lemma {:induction false} WithoutKeepsOrder(tabs: seq<Tab>, id: string)
    ensures IsSubsequence(Without(tabs, id), tabs)
  {
    if tabs != [] {
      WithoutKeepsOrder(tabs[1..], id);
      if tabs[0].id == id {
        SubsequenceDropFront(Without(tabs[1..], id), [tabs[0]], tabs[1..]);
        assert [tabs[0]] + tabs[1..] == tabs;
      } else {
        assert tabs == [tabs[0]] + tabs[1..];
      }
    }
  }

  lemma {:induction false} WithoutAbsent(tabs: seq<Tab>, id: string)
    requires !Holds(tabs, ById, id)
    ensures Without(tabs, id) == tabs
  {
    if tabs != [] {
      assert Key(tabs[0], ById) == tabs[0].id;
      assert !Holds(tabs[1..], ById, id) by {
        assert forall k :: 0 <= k < |tabs[1..]| ==> tabs[1..][k] == tabs[k + 1];
      }
      WithoutAbsent(tabs[1..], id);
      assert tabs == [tabs[0]] + tabs[1..];
    }
  }

  lemma {:induction false} WithoutIds(tabs: seq<Tab>, id: string)
    requires NoDuplicates(Keys(tabs, ById))
    ensures NoDuplicates(Keys(Without(tabs, id), ById))
  {
    if tabs != [] {
      var first := tabs[0].id;
      var later := Keys(tabs[1..], ById);
      assert Keys(tabs, ById) == [first] + later;
      NoDuplicatesSplit([first], later);
      assert first !in later;
      WithoutIds(tabs[1..], id);
      if first != id {
        var rest := Without(tabs[1..], id);
        var ks := Keys(rest, ById);
        KeyAbsentWithout(tabs[1..], id, first);
        NoDuplicatesJoin([first], ks);
        assert Without(tabs, id) == [tabs[0]] + rest;
        assert Keys([tabs[0]] + rest, ById) == [first] + ks;
      }
    }
  }

  /** An id no tab carries is still carried by none once tabs are removed. */
  lemma KeyAbsentWithout(tabs: seq<Tab>, id: string, x: string)
    requires x !in Keys(tabs, ById)
    ensures x !in Keys(Without(tabs, id), ById)
  {
    var rest := Without(tabs, id);
    forall k | 0 <= k < |rest| ensures rest[k].id != x {
      WithoutMembers(tabs, id, rest[k]);
      var j :| 0 <= j < |tabs| && tabs[j] == rest[k];
      assert Keys(tabs, ById)[j] == rest[k].id;
    }
  }

  /** The close button: every tab with that id goes. When it was the active
      one and tabs remain, the first remaining tab becomes active; otherwise
      the active id is kept, even when it now names no tab. */
  function Close(s: State, fileId: string): (r: State)
    ensures r.tabs == Without(s.tabs, fileId) && r.theme == s.theme
    ensures fileId == s.active && r.tabs != [] ==> r.active == r.tabs[0].id
    ensures fileId != s.active || r.tabs == [] ==> r.active == s.active
  {
    var rest := Without(s.tabs, fileId);
    if fileId == s.active && |rest| > 0 then s.(tabs := rest, active := rest[0].id)
    else s.(tabs := rest)
  }

  /** A new tab closed straight away gives back the tabs it started from. */
  lemma NewThenClose(s: State, newId: string)
    requires !Holds(s.tabs, ById, newId)
    ensures Close(NewTab(s, newId), newId).tabs == s.tabs
  {
    var r := NewTab(s, newId);
    assert r.tabs == s.tabs + [Untitled(newId)];
    WithoutAppend(s.tabs, Untitled(newId));
  }

  lemma {:induction false} WithoutAppend(tabs: seq<Tab>, t: Tab)
    requires !Holds(tabs, ById, t.id)
    ensures Without(tabs + [t], t.id) == tabs
  {
    if tabs == [] {
      assert [t][1..] == [];
    } else {
      assert (tabs + [t])[1..] == tabs[1..] + [t];
      assert !Holds(tabs[1..], ById, t.id) by {
        assert forall k :: 0 <= k < |tabs[1..]| ==> tabs[1..][k] == tabs[k + 1];
      }
      assert Key(tabs[0], ById) == tabs[0].id;
      WithoutAppend(tabs[1..], t);
      assert tabs == [tabs[0]] + tabs[1..];
    }
  }

  /** Clicking a tab makes it the active one. */
  function Activate(s: State, id: string): (r: State)
    ensures Holds(s.tabs, ById, id) ==> ActiveTab(r).Some? && ActiveTab(r).value.id == id
    ensures r.tabs == s.tabs
  {
    s.(active := id)
  }

  // ---------------------------------------------------------------------------
  // The invariant

  lemma EditValid(s: State, value: Option<string>)
    requires Valid(s)
    ensures Valid(Edit(s, value))
  {
    if value.Some? && value.value != "" && s.active != "" {
      UpdateKeepsIds(s.tabs, s.active, Write(value.value));
    }
  }

  lemma SaveValid(s: State)
    requires Valid(s)
    ensures Valid(Save(s))
  {
    if ActiveTab(s).Some? {
      UpdateKeepsIds(s.tabs, s.active, MarkSaved);
    }
  }

  lemma OpenValid(s: State, t: Tab)
    requires Valid(s) && !Holds(s.tabs, ById, t.id)
    ensures Valid(Open(s, t))
  {
    AppendKeepsDistinct(s.tabs, t, ById);
  }

  /** Appending a tab whose `field` is new keeps that field distinct. */
  lemma AppendKeepsDistinct(tabs: seq<Tab>, t: Tab, field: Field)
    requires NoDuplicates(Keys(tabs, field)) && !Holds(tabs, field, Key(t, field))
    ensures NoDuplicates(Keys(tabs + [t], field))
  {
    assert Keys(tabs + [t], field) == Keys(tabs, field) + [Key(t, field)];
    assert Key(t, field) !in Keys(tabs, field);
    NoDuplicatesJoin(Keys(tabs, field), [Key(t, field)]);
  }

  /** A new tab or an upload keeps the invariant when its id is fresh. */
  lemma NewTabValid(s: State, newId: string)
    requires Valid(s) && !Holds(s.tabs, ById, newId)
    ensures Valid(NewTab(s, newId))
  {
    OpenValid(s, Untitled(newId));
  }

  lemma UploadValid(s: State, file: Option<Picked>, newId: string)
    requires Valid(s) && !Holds(s.tabs, ById, newId)
    ensures Valid(Upload(s, file, newId))
  {
    if file.Some? {
      OpenValid(s, Tab(newId, file.value.name, file.value.content, Languages.LanguageFor(Languages.EditorTable, file.value.name), false));
    }
  }

  /** Closing keeps the invariant whichever tab goes. */
  lemma CloseValid(s: State, fileId: string)
    requires Valid(s)
    ensures Valid(Close(s, fileId))
  {
    var r := Close(s, fileId);
    WithoutIds(s.tabs, fileId);
    if r.tabs != [] {
      if fileId == s.active {
        assert Key(r.tabs[0], ById) == r.active;
      } else {
        var k :| 0 <= k < |s.tabs| && Key(s.tabs[k], ById) == s.active;
        WithoutMembers(s.tabs, fileId, s.tabs[k]);
        var j :| 0 <= j < |r.tabs| && r.tabs[j] == s.tabs[k];
        assert Key(r.tabs[j], ById) == s.active;
      }
    }
  }

  lemma ActivateValid(s: State, id: string)
    requires Valid(s) && Holds(s.tabs, ById, id)
    ensures Valid(Activate(s, id))
  {
  }
}
