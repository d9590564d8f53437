/** `extract_info_from_file`: the per-file record of the documentation
    generator. Reading the file and parsing Python are not modelled; their
    outcome is an input (`Load`). */
module Extract {
  import opened Wrappers
  import opened Strings
  import opened OrderedDict
  import opened Paths

  /** The ignore list, compared against the lower-cased extension. */
  const IgnoredExtensions: seq<string> :=
    [".gitattributes", ".gitignore", "LICENSE", ".md", ".txt", ".db", ".pdf"]

  /** The reserved key holding the file's extension. */
  const TypeKey: string := "type"

  /** The key holding the raw text of a stylesheet or script. */
  const ContentKey: string := "content"

  /** The value recorded for a declaration without a docstring. */
  const NoDocstring: string := "No docstring found."

  /** A function, async function or class definition as `ast.walk` meets it:
      its name and what `ast.get_docstring` returned for it. */
  datatype Declaration = Declaration(name: string, docstring: Option<string>)

  /** The outcome of the `try` block's I/O: either something raised (the file
      could not be opened or decoded, or a `.py` file did not parse), or the
      file's text with, for a `.py` file, its declarations in walk order. The
      text is what `read()` returns on a file opened in text mode: decoded
      from UTF-8, with `\r\n` and a lone `\r` already turned into `\n`. */
  datatype Load = LoadError | Loaded(text: string, declarations: seq<Declaration>)

  /** The file is skipped entirely. */
  predicate Ignored(path: string)
  {
    Lower(Extension(path)) in IgnoredExtensions
  }

  /** The value recorded for one declaration: its docstring stripped, or the
      placeholder when the docstring is missing or empty. */
  function DocValue(docstring: Option<string>): (v: string)
    ensures docstring.None? || docstring.value == [] ==> v == NoDocstring
    ensures docstring.Some? && docstring.value != [] ==>
      Trimmed(v) && StripsTo(docstring.value, v)
  {
    if docstring.Some? && docstring.value != [] then Strip(docstring.value) else NoDocstring
  }

  /** The assignments the declaration loop performs, in order. */
  function DocEntries(decls: seq<Declaration>): (es: seq<Entry>)
    ensures |es| == |decls|
    ensures forall i :: 0 <= i < |decls| ==>
      es[i] == Entry(decls[i].name, DocValue(decls[i].docstring))
  {
    seq(|decls|, i requires 0 <= i < |decls| => Entry(decls[i].name, DocValue(decls[i].docstring)))
  }

  /** The declared names, in walk order, repetitions included. */
  function Names(decls: seq<Declaration>): (ns: seq<string>)
    ensures ns == Keys(DocEntries(decls))
  {
    seq(|decls|, i requires 0 <= i < |decls| => decls[i].name)
  }

  /** The record seeded before the `try` block. */
  function Seed(path: string): Dict
  {
    [Entry(TypeKey, Extension(path))]
  }

  /** The branch of the `try` block a path takes. The suffix tests are
      case-sensitive and look at the whole path, not at its extension. */
  datatype Kind = Python | Content | Plain

  function KindOf(path: string): Kind
  {
    if EndsWith(path, ".py") then Python
    else if EndsWith(path, ".css") || EndsWith(path, ".js") then Content
    else Plain
  }

  /** The record of a file that is not ignored, from its extension, its
      branch and the outcome of its I/O. */
  function Record(ext: string, kind: Kind, load: Load): (r: Dict)
    ensures r != [] && r[0].key == TypeKey
    ensures Unique(r)
  {
    var seed := [Entry(TypeKey, ext)];
    assert Keys(seed) == [TypeKey];
    if load.LoadError? then seed
    else match kind
      case Python =>
        var r := PutAll(seed, DocEntries(load.declarations));
        assert Keys(r)[0] == TypeKey && Unique(r) by {
          PutAllKeys(seed, DocEntries(load.declarations));
          DedupKeepsHead([TypeKey] + Names(load.declarations));
        }
        r
      case Content =>
        PutKeepsUnique(seed, ContentKey, load.text);
        Put(seed, ContentKey, load.text)
      case Plain => seed
  }

  /** `extract_info_from_file(path)`, given the outcome of the file's I/O. */
  function ExtractInfo(path: string, load: Load): (r: Dict)
    ensures r == [] <==> Ignored(path)
    ensures Unique(r)
    ensures r != [] ==> r[0].key == TypeKey
  {
    if Ignored(path) then [] else Record(Extension(path), KindOf(path), load)
  }

  /** Whatever fails inside the `try` block, a file that is not ignored keeps
      its type tag, holding the extension in its original case, and nothing else. */
  lemma FailureKeepsTypeTag(path: string)
    requires !Ignored(path)
    ensures ExtractInfo(path, LoadError) == [Entry(TypeKey, Extension(path))]
  {
  }

  /** The record of a file listed in a directory depends on its name only:
      the extension and the suffix tests do not look past the last `/`. */
  lemma ExtractInfoOfJoin(root: string, name: string, load: Load)
    requires '/' !in name
    ensures ExtractInfo(Join(root, name), load) == ExtractInfo(name, load)
  {
    assert Extension(Join(root, name)) == Extension(name) by {
      ExtensionOfJoin(root, name);
    }
    assert Ignored(Join(root, name)) == Ignored(name);
    KindOfJoin(root, name);
  }

  /** The suffix tests on a joined path see only the file name. */
  lemma KindOfJoin(root: string, name: string)
    requires '/' !in name
    ensures KindOf(Join(root, name)) == KindOf(name)
  {
    EndsWithJoin(root, name, ".py");
    EndsWithJoin(root, name, ".css");
    EndsWithJoin(root, name, ".js");
  }

  /** A stylesheet or script: the type tag and the text, unmodified. */
  lemma ContentRecord(path: string, text: string, decls: seq<Declaration>)
    requires !Ignored(path) && (EndsWith(path, ".css") || EndsWith(path, ".js"))
    ensures ExtractInfo(path, Loaded(text, decls)) ==
      [Entry(TypeKey, Extension(path)), Entry(ContentKey, text)]
  {
    assert KindOf(path) == Content by {
      assert !EndsWith(path, ".py");
    }
    var seed := [Entry(TypeKey, Extension(path))];
    assert Keys(seed) == [TypeKey];
    PutNewKey(seed, ContentKey, text);
  }

  /** Any other suffix (the test is case-sensitive, so `.PY` is one): the type
      tag alone. */
  lemma OtherSuffixTypeTagOnly(path: string, load: Load)
    requires !Ignored(path)
    requires !EndsWith(path, ".py") && !EndsWith(path, ".css") && !EndsWith(path, ".js")
    ensures ExtractInfo(path, load) == [Entry(TypeKey, Extension(path))]
  {
  }

  /** A path ending in `.css` or `.js` is never ignored: its extension is
      that suffix, or empty when the suffix is the whole file name. */
  lemma ContentNotIgnored(path: string)
    requires EndsWith(path, ".css") || EndsWith(path, ".js")
    ensures !Ignored(path)
  {
    EmptyExtensionNotIgnored();
    ContentExtensionsNotIgnored();
    if EndsWith(path, ".css") {
      ExtensionOfSuffix(path, ".css");
    } else {
      ExtensionOfSuffix(path, ".js");
    }
  }

  /** `.css` and `.js` are not on the ignore list, in any case. */
  lemma ContentExtensionsNotIgnored()
    ensures Lower(".css") !in IgnoredExtensions
    ensures Lower(".js") !in IgnoredExtensions
  {
    assert Lower(".css") == ".css";
    assert Lower(".js") == ".js";
  }

  /** The first element of a sequence survives deduplication in front. */
  lemma DedupKeepsHead(s: seq<string>)
    requires |s| > 0
    ensures |Dedup(s)| > 0 && Dedup(s)[0] == s[0]
  {
    var r := Dedup(s);
    assert s[0] in r;
    DedupOfDistinct([s[0]]);
    var i := FirstIndex(r, s[0]);
    if i > 0 {
      DedupKeepsFirstOccurrenceOrder(s, 0, i);
    }
  }

  /** For a parsed `.py` file, the keys are `type` followed by the declared
      names in the order of their first definition, each name once. */
  lemma PyKeyOrder(path: string, text: string, decls: seq<Declaration>)
    requires !Ignored(path) && EndsWith(path, ".py")
    ensures Keys(ExtractInfo(path, Loaded(text, decls))) == Dedup([TypeKey] + Names(decls))
  {
    PyBranch(path, text, decls);
    assert Keys(Seed(path)) == [TypeKey];
    PutAllKeys(Seed(path), DocEntries(decls));
  }

  /** The `.py` branch: the seeded record updated by the declarations. */
  lemma PyBranch(path: string, text: string, decls: seq<Declaration>)
    requires !Ignored(path) && EndsWith(path, ".py")
    ensures ExtractInfo(path, Loaded(text, decls)) == PutAll(Seed(path), DocEntries(decls))
  {
  }

  /** For a parsed `.py` file, a name maps to the docstring value of its LAST
      declaration; a declaration named `type` overwrites the type tag. */
  lemma PyLastDeclarationWins(path: string, text: string, decls: seq<Declaration>, i: int)
    requires !Ignored(path) && EndsWith(path, ".py")
    requires 0 <= i < |decls|
    requires forall j :: i < j < |decls| ==> decls[j].name != decls[i].name
    ensures Get(ExtractInfo(path, Loaded(text, decls)), decls[i].name) == Some(DocValue(decls[i].docstring))
  {
    PyBranch(path, text, decls);
    PutAllLastAssignmentWins(Seed(path), DocEntries(decls), i);
  }

  /** For a parsed `.py` file, a key that no declaration names is absent,
      except the type tag, which keeps the extension. */
  lemma PyUndeclaredKey(path: string, text: string, decls: seq<Declaration>, k: string)
    requires !Ignored(path) && EndsWith(path, ".py")
    requires k !in Names(decls)
    ensures Get(ExtractInfo(path, Loaded(text, decls)), k) ==
      if k == TypeKey then Some(Extension(path)) else None
  {
    PyBranch(path, text, decls);
    PutAllUnassignedKey(Seed(path), DocEntries(decls), k);
  }

  /** `LICENSE` in the ignore list never matches: a lower-cased extension
      has no capitals, and a non-empty extension starts with a dot. */
  lemma LicenseEntryNeverMatches(path: string)
    ensures Lower(Extension(path)) != "LICENSE"
  {
    var e := Lower(Extension(path));
    if |e| == 7 {
      assert !IsUpper(e[0]);
    }
  }

  /** The files named `LICENSE`, `.gitignore` and `.gitattributes` are not
      ignored: they have no extension, and each yields a record holding only
      an empty type tag. */
  lemma NamedFilesNotIgnored(root: string, name: string, load: Load)
    requires name == "LICENSE" || name == ".gitignore" || name == ".gitattributes"
    ensures ExtractInfo(Join(root, name), load) == [Entry(TypeKey, "")]
  {
    if name == "LICENSE" {
      assert "LICENSE"[|"LICENSE"| - 3..] == "NSE";
      assert "LICENSE"[|"LICENSE"| - 4..] == "ENSE";
      PlainNameWithoutExtension(root, "LICENSE", load);
    } else if name == ".gitignore" {
      assert ".gitignore"[|".gitignore"| - 3..] == "ore";
      assert ".gitignore"[|".gitignore"| - 4..] == "nore";
      PlainNameWithoutExtension(root, ".gitignore", load);
    } else {
      assert ".gitattributes"[|".gitattributes"| - 3..] == "tes";
      assert ".gitattributes"[|".gitattributes"| - 4..] == "utes";
      PlainNameWithoutExtension(root, ".gitattributes", load);
    }
  }

  /** A name with no extension is never ignored, and unless it ends in one of
      the three recognised suffixes its record is the empty type tag alone. */
  lemma PlainNameWithoutExtension(root: string, name: string, load: Load)
    requires '/' !in name
    requires forall i :: 0 < i < |name| ==> name[i] != '.'
    requires !EndsWith(name, ".py") && !EndsWith(name, ".css") && !EndsWith(name, ".js")
    ensures ExtractInfo(Join(root, name), load) == [Entry(TypeKey, "")]
  {
    ExtractInfoOfJoin(root, name, load);
    NoExtension(name);
    EmptyExtensionNotIgnored();
    assert KindOf(name) == Plain;
  }

  /** Every entry of the ignore list is non-empty. */
  lemma EmptyExtensionNotIgnored()
    ensures Lower([]) !in IgnoredExtensions
  {
    assert Lower([]) == [];
    assert forall i :: 0 <= i < |IgnoredExtensions| ==> |IgnoredExtensions[i]| >= 3;
  }

  /** A name with no dot after its first character has no extension. */
  lemma NoExtension(name: string)
    requires '/' !in name
    requires forall i :: 0 < i < |name| ==> name[i] != '.'
    ensures Extension(name) == []
  {
    ExtensionCharacterisation(name);
    assert LastIndexOf(name, '/') == -1;
    assert Basename(name) == name;
  }

  /** A file named exactly `.py` has an empty extension but is still parsed,
      because the branch tests the path's suffix, not the extension. */
  lemma DotPyIsParsedWithEmptyType(root: string, text: string, decls: seq<Declaration>)
    ensures !Ignored(Join(root, ".py"))
    ensures ExtractInfo(Join(root, ".py"), Loaded(text, decls)) == PutAll([Entry(TypeKey, "")], DocEntries(decls))
  {
    ExtractInfoOfJoin(root, ".py", Loaded(text, decls));
    assert Extension(".py") == [] by {
      assert ".py"[1] == 'p' && ".py"[2] == 'y';
      NoExtension(".py");
    }
    EmptyExtensionNotIgnored();
    assert EndsWith(".py", ".py");
    PyBranch(".py", text, decls);
  }
}
