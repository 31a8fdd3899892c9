/** The extension-to-language rule shared by the editor's upload path and the
    IDE's open-file path: lowercase the text after the last `.` and look it up
    in a fixed table, falling back to `plaintext`. */
module Languages {
  import opened Strings

  /** The table the editor declares for uploaded files. */
  const EditorTable: map<string, string> := map[
    "js" := "javascript", "jsx" := "javascript",
    "ts" := "typescript", "tsx" := "typescript",
    "py" := "python", "html" := "html", "css" := "css", "json" := "json",
    "md" := "markdown", "xml" := "xml", "sql" := "sql", "java" := "java",
    "cpp" := "cpp", "c" := "c", "php" := "php", "rb" := "ruby",
    "go" := "go", "rs" := "rust", "sh" := "shell"
  ]

  /** The table the IDE declares, separately, for files picked in the explorer. */
  const IdeTable: map<string, string> := map[
    "js" := "javascript", "jsx" := "javascript",
    "ts" := "typescript", "tsx" := "typescript",
    "py" := "python", "html" := "html", "css" := "css", "json" := "json",
    "md" := "markdown", "xml" := "xml", "sql" := "sql", "java" := "java",
    "cpp" := "cpp", "c" := "c", "php" := "php", "rb" := "ruby",
    "go" := "go", "rs" := "rust", "sh" := "shell"
  ]

  const Fallback := "plaintext"

  /** The two declarations are the same table. */
  lemma TablesAgree()
    ensures EditorTable == IdeTable
  {
  }

  /** The last `.`-separated piece of `name`, lowercased. A name without a dot
      is its own extension; a name ending in a dot has the empty one. */
  function Extension(name: string): (ext: string)
    ensures '.' !in ext
    ensures |ext| <= |name|
  {
    var parts := Split(name, '.');
    LastPieceFits(name);
    SplitPiecesFree(name, '.');
    Lower(parts[|parts| - 1])
  }

  lemma {:induction false} LastPieceFits(name: string)
    ensures var parts := Split(name, '.'); |parts[|parts| - 1]| <= |name|
  {
    var parts := Split(name, '.');
    JoinSplit(name, '.');
    JoinHoldsLast(parts, '.');
  }

  lemma {:induction false} JoinHoldsLast(parts: seq<string>, sep: char)
    requires |parts| >= 1
    ensures |parts[|parts| - 1]| <= |Join(parts, sep)|
  {
    if |parts| > 1 {
      JoinHoldsLast(parts[1..], sep);
      assert parts[1..][|parts[1..]| - 1] == parts[|parts| - 1];
    }
  }

  /** The extension is what follows the last dot: `stem.ext` with a dot-free
      `ext` has extension `ext`, lowercased, whatever the stem holds. */
  lemma ExtensionAfterLastDot(stem: string, ext: string)
    requires '.' !in ext
    ensures Extension(stem + "." + ext) == Lower(ext)
  {
    assert stem + "." + ext == stem + ['.'] + ext;
    SplitAround(stem, ext, '.');
    SplitWithoutSeparator(ext, '.');
  }

  /** A name without a dot is its own extension, lowercased. */
  lemma ExtensionWithoutDot(name: string)
    requires '.' !in name
    ensures Extension(name) == Lower(name)
  {
    SplitWithoutSeparator(name, '.');
  }

  /** The language `table` gives a file called `name`: the entry under its own
      extension key, otherwise the fallback. */
  function LanguageFor(table: map<string, string>, name: string): (lang: string)
    ensures lang == Fallback || lang in table.Values
    ensures Extension(name) !in table ==> lang == Fallback
    ensures Extension(name) in table ==> lang == table[Extension(name)]
  {
    var ext := Extension(name);
    if ext in table then table[ext] else Fallback
  }

  /** Every key of the table is already lowercase, so `<stem>.<key>` finds its
      entry, and so does the same name with the key written in capitals. */
  lemma KnownExtension(stem: string, ext: string)
    requires '.' !in ext && Lower(ext) in EditorTable
    ensures LanguageFor(EditorTable, stem + "." + ext) == EditorTable[Lower(ext)]
    ensures LanguageFor(EditorTable, stem + "." + ext) != Fallback
  {
    ExtensionAfterLastDot(stem, ext);
  }

  predicate IsCapital(c: char) {
    'A' <= c <= 'Z'
  }

  /** Whether `s` holds an upper-case ASCII letter. */
  predicate HasCapital(s: string) {
    exists k :: 0 <= k < |s| && IsCapital(s[k])
  }

  /** Upper-case ASCII letters never survive `Lower`. */
  lemma LowerHasNoCapital(s: string)
    ensures !HasCapital(Lower(s))
  {
  }

  // ---------------------------------------------------------------------------
  // The lookup as written: `languageMap[ext] || 'plaintext'` on a plain object

  /** Members every object literal inherits from `Object.prototype`. */
  const PrototypeKeys: set<string> := {
    "constructor", "__proto__", "hasOwnProperty", "isPrototypeOf",
    "propertyIsEnumerable", "toString", "toLocaleString", "valueOf",
    "__defineGetter__", "__defineSetter__", "__lookupGetter__", "__lookupSetter__"
  }

  /** What a property read on the table object yields. */
  datatype Property = Own(value: string) | Inherited(key: string) | Missing

  function Read(table: map<string, string>, key: string): (p: Property)
    ensures p.Own? <==> key in table
    ensures p.Inherited? <==> key !in table && key in PrototypeKeys
  {
    if key in table then Own(table[key])
    else if key in PrototypeKeys then Inherited(key)
    else Missing
  }

  /** The value the source stores as the tab's language: a string, or the
      inherited prototype member when the extension names one. */
  datatype Language = Named(name: string) | PrototypeMember(key: string)

  function LanguageAsWritten(table: map<string, string>, name: string): (lang: Language)
    ensures lang.Named? ==> lang.name == Fallback || lang.name in table.Values
  {
    match Read(table, Extension(name))
    case Own(v) => if v != "" then Named(v) else Named(Fallback)
    case Inherited(key) => PrototypeMember(key)
    case Missing => Named(Fallback)
  }

  /** A file called `<stem>.constructor`, `app.constructor` say, gets the
      `Object` constructor function as its language instead of `plaintext`. */
  lemma ConstructorLeaks(stem: string)
    ensures LanguageAsWritten(EditorTable, stem + ".constructor") == PrototypeMember("constructor")
    ensures LanguageFor(EditorTable, stem + ".constructor") == Fallback
  {
    var key := "constructor";
    assert stem + ".constructor" == stem + "." + key;
    ExtensionAfterLastDot(stem, key);
    LowerLowered(key);
    assert key !in EditorTable && key in PrototypeKeys;
  }

  /** The inherited member names other than `constructor` and `__proto__` all
      hold a capital letter. */
  lemma CapitalMembers()
    ensures forall key :: key in PrototypeKeys && key != "constructor" && key != "__proto__" ==> HasCapital(key)
  {
    assert IsCapital("hasOwnProperty"[3]);
    assert IsCapital("isPrototypeOf"[2]);
    assert IsCapital("propertyIsEnumerable"[8]);
    assert IsCapital("toString"[2]);
    assert IsCapital("toLocaleString"[2]);
    assert IsCapital("valueOf"[5]);
    assert IsCapital("__defineGetter__"[8]);
    assert IsCapital("__defineSetter__"[8]);
    assert IsCapital("__lookupGetter__"[8]);
    assert IsCapital("__lookupSetter__"[8]);
  }

  /** Only two inherited keys are reachable, because the extension is
      lowercased and every other member name holds a capital letter. */
  lemma LeakIffPrototypeExtension(name: string)
    ensures LanguageAsWritten(EditorTable, name).PrototypeMember? <==>
      Extension(name) == "constructor" || Extension(name) == "__proto__"
    ensures LanguageAsWritten(IdeTable, name) == LanguageAsWritten(EditorTable, name)
  {
    TablesAgree();
    var parts := Split(name, '.');
    LowerHasNoCapital(parts[|parts| - 1]);
    LowercaseInherited(Extension(name));
  }

  /** A key without capitals reaches an inherited member only as one of those two. */
  lemma LowercaseInherited(key: string)
    requires !HasCapital(key)
    ensures Read(EditorTable, key).Inherited? <==> key == "constructor" || key == "__proto__"
  {
    CapitalMembers();
  }

  /** Away from those two keys the lookup as written and the corrected one agree. */
  lemma AsWrittenAgrees(table: map<string, string>, name: string)
    requires forall k :: k in table ==> table[k] != ""
    requires Extension(name) !in PrototypeKeys
    ensures LanguageAsWritten(table, name) == Named(LanguageFor(table, name))
  {
  }
}
