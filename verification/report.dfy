/** `generate_documentation_md`: pruning of the subdirectories `os.walk` will
    descend into, and the Markdown written for the files of one directory.
    The walk itself and the output file are not modelled; the output is a
    string that each `write` call extends. */
module Report {
  import opened Wrappers
  import opened Strings
  import opened OrderedDict
  import opened Paths
  import opened Extract

  /** The excluded directory names, matched exactly; "assets" is listed twice. */
  const ExcludedDirs: seq<string> :=
    [".", "venv", ".env_win", ".git", "__pycache__", "_data", "data", "data_lcl_pdf",
     "assets", "archives", "_markdown_modules_courses", "assets", "Bills GCP",
     "Google Cloud Skills Boost", "PPT", "Quiz", "Quiz prompts", "archives_py"]

  /** A subdirectory the walk descends into, given the excluded names. */
  predicate Kept(d: string, excluded: seq<string>)
  {
    !StartsWith(d, ".") && d !in excluded
  }

  /** `a` can be obtained from `b` by deleting elements. */
  predicate IsSubsequence(a: seq<string>, b: seq<string>)
    decreases |b|
  {
    if |a| == 0 then true
    else if |b| == 0 then false
    else (a[0] == b[0] && IsSubsequence(a[1..], b[1..])) || IsSubsequence(a, b[1..])
  }

  /** The list comprehension assigned to `dirs[:]`, for the list of excluded names. */
  function PruneDirs(dirs: seq<string>, excluded: seq<string>): (r: seq<string>)
    ensures forall d :: d in r <==> d in dirs && Kept(d, excluded)
  {
    if |dirs| == 0 then []
    else
      var rest := PruneDirs(dirs[1..], excluded);
      assert dirs == [dirs[0]] + dirs[1..];
      if Kept(dirs[0], excluded) then [dirs[0]] + rest else rest
  }

  /** Each kept name occurs as often as in the input; the others not at all. */
  lemma {:induction false} PruneCounts(dirs: seq<string>, excluded: seq<string>)
    ensures forall d :: multiset(PruneDirs(dirs, excluded))[d] == if Kept(d, excluded) then multiset(dirs)[d] else 0
  {
    if |dirs| > 0 {
      PruneCounts(dirs[1..], excluded);
      assert dirs == [dirs[0]] + dirs[1..];
    }
  }

  /** The kept names are in their original order. */
  lemma {:induction false} PruneIsSubsequence(dirs: seq<string>, excluded: seq<string>)
    ensures IsSubsequence(PruneDirs(dirs, excluded), dirs)
  {
    if |dirs| > 0 {
      PruneIsSubsequence(dirs[1..], excluded);
      var rest := PruneDirs(dirs[1..], excluded);
      if Kept(dirs[0], excluded) {
        assert ([dirs[0]] + rest)[1..] == rest;
      }
    }
  }

  /** Pruning distributes over concatenation, so it keeps relative order. */
  lemma {:induction false} PruneAppend(a: seq<string>, b: seq<string>, excluded: seq<string>)
    ensures PruneDirs(a + b, excluded) == PruneDirs(a, excluded) + PruneDirs(b, excluded)
  {
    if |a| > 0 {
      assert (a + b)[1..] == a[1..] + b;
      assert (a + b)[0] == a[0];
      PruneAppend(a[1..], b, excluded);
    } else {
      assert a + b == b;
    }
  }

  /** Pruning an already pruned list changes nothing. */
  lemma {:induction false} PruneIdempotent(dirs: seq<string>, excluded: seq<string>)
    ensures PruneDirs(PruneDirs(dirs, excluded), excluded) == PruneDirs(dirs, excluded)
  {
    if |dirs| > 0 {
      PruneIdempotent(dirs[1..], excluded);
      var rest := PruneDirs(dirs[1..], excluded);
      if Kept(dirs[0], excluded) {
        assert ([dirs[0]] + rest)[1..] == rest;
      }
    }
  }

  /** The pruning `os.walk` sees at every level: the fixed excluded names. */
  function WalkPrune(dirs: seq<string>): (r: seq<string>)
    ensures forall d :: d in r <==> d in dirs && !StartsWith(d, ".") && d !in ExcludedDirs
  {
    PruneDirs(dirs, ExcludedDirs)
  }

  /** The texts of `xs`, each produced by `text`, concatenated in order: what
      a loop writes that calls `write` once per element. */
  function Emit<T>(xs: seq<T>, text: T -> string): string
  {
    if |xs| == 0 then "" else Emit(xs[..|xs| - 1], text) + text(xs[|xs| - 1])
  }

  /** The loop step: writing the next element's text keeps the output equal
      to the emitted prefix. */
  lemma EmitStep<T>(out: string, before: string, xs: seq<T>, i: int, text: T -> string)
    requires 0 <= i < |xs|
    requires before == out + Emit(xs[..i], text)
    ensures before + text(xs[i]) == out + Emit(xs[..i + 1], text)
  {
    EmitSnoc(xs, i, text);
  }

  /** Emitting one more element appends that element's text. */
  lemma EmitSnoc<T>(xs: seq<T>, i: int, text: T -> string)
    requires 0 <= i < |xs|
    ensures Emit(xs[..i + 1], text) == Emit(xs[..i], text) + text(xs[i])
  {
    assert xs[..i + 1][..i] == xs[..i];
  }

  /** Emitting `a + b` emits `a`, then `b`. */
  lemma {:induction false} EmitAppend<T>(a: seq<T>, b: seq<T>, text: T -> string)
    ensures Emit(a + b, text) == Emit(a, text) + Emit(b, text)
  {
    if |b| > 0 {
      var n := |b| - 1;
      assert (a + b)[..|a + b| - 1] == a + b[..n];
      EmitAppend(a, b[..n], text);
    } else {
      assert a + b == a;
    }
  }

  /** The header line of a file's block. */
  function Header(filename: string, fileType: string): string
  {
    Concat(["# File ", filename, " (", fileType, ")\n"])
  }

  /** The line written for one non-type key. */
  function EntryLine(e: Entry): string
  {
    Concat([" - **", e.key, "** : ", e.value, "\n"])
  }

  /** What is written for one entry: nothing for the type tag. */
  function Line(e: Entry): string
  {
    if e.key == TypeKey then "" else EntryLine(e)
  }

  /** The lines written for the entries of `d` in order, the type tag skipped. */
  function BodyLines(d: Dict): string
  {
    Emit(d, Line)
  }

  /** The text written for one file whose record is `d`: nothing for an empty
      record, otherwise the header, one line per non-type key, a blank line. */
  function Block(filename: string, d: Dict): (r: string)
    requires d == [] || TypeKey in Keys(d)
    ensures r == [] <==> d == []
  {
    if d == [] then ""
    else Header(filename, Get(d, TypeKey).value) + BodyLines(d) + "\n"
  }

  /** A non-empty record's block opens with its header, showing the value
      under `type`, and closes with a newline. */
  lemma BlockFrame(filename: string, d: Dict)
    requires TypeKey in Keys(d)
    ensures StartsWith(Block(filename, d), Header(filename, Get(d, TypeKey).value))
    ensures EndsWith(Block(filename, d), "\n")
  {
    var h := Header(filename, Get(d, TypeKey).value);
    var r := h + BodyLines(d) + "\n";
    assert r[..|h|] == h;
  }

  /** A line is written for each entry not keyed `type`: when the record has
      no other keys, the body is empty. */
  lemma {:induction false} BodyOfTypeOnly(d: Dict)
    requires forall i :: 0 <= i < |d| ==> d[i].key == TypeKey
    ensures BodyLines(d) == ""
  {
    if |d| > 0 {
      BodyOfTypeOnly(d[..|d| - 1]);
      assert Line(d[|d| - 1]) == "";
    }
  }

  /** The body of `a + b` is the body of `a` followed by the body of `b`. */
  lemma BodyAppend(a: Dict, b: Dict)
    ensures BodyLines(a + b) == BodyLines(a) + BodyLines(b)
  {
    EmitAppend(a, b, Line);
  }

  /** The `for key, value in info_dict.items()` loop: one line per entry
      whose key is not `type`, in insertion order. */
  method WriteBody(out: string, d: Dict) returns (out': string)
    ensures out' == out + BodyLines(d)
  {
    out' := out;
    var i := 0;
    while i < |d|
      invariant 0 <= i <= |d|
      invariant out' == out + Emit(d[..i], Line)
    {
      var before := out';
      if d[i].key != TypeKey {
        out' := out' + EntryLine(d[i]);
        assert Line(d[i]) == EntryLine(d[i]);
      } else {
        assert before + Line(d[i]) == before;
      }
      EmitStep(out, before, d, i, Line);
      i := i + 1;
    }
    assert d[..|d|] == d;
  }

  /** Writing one file's block (the `if info_dict:` statement) onto `out`. */
  method WriteBlock(out: string, filename: string, d: Dict) returns (out': string)
    requires d == [] || TypeKey in Keys(d)
    ensures out' == out + Block(filename, d)
  {
    out' := out;
    if d != [] {
      out' := out' + Header(filename, Get(d, TypeKey).value);
      out' := WriteBody(out', d);
      out' := out' + "\n";
    }
  }

  /** A file as listed by `os.walk` in one directory, with the outcome of its I/O. */
  datatype ListedFile = ListedFile(name: string, load: Load)

  /** The record of a listed file in directory `root`. */
  function FileRecord(root: string, f: ListedFile): (r: Dict)
    ensures r == [] || TypeKey in Keys(r)
  {
    var r := ExtractInfo(Join(root, f.name), f.load);
    assert r != [] ==> Keys(r)[0] == TypeKey;
    r
  }

  /** The text written for one listed file of directory `root`. */
  function FileText(root: string, f: ListedFile): string
  {
    Block(Basename(f.name), FileRecord(root, f))
  }

  /** The text written for the files of one directory, in listing order. */
  function DirectoryText(root: string, files: seq<ListedFile>): string
  {
    Emit(files, f => FileText(root, f))
  }

  /** Writing one listed file of directory `root` onto `out`. */
  method WriteFile(out: string, root: string, f: ListedFile) returns (out': string)
    ensures out' == out + FileText(root, f)
  {
    out' := WriteBlock(out, Basename(f.name), FileRecord(root, f));
  }

  /** The `for file in files` loop of one directory. */
  method WriteDirectory(out: string, root: string, files: seq<ListedFile>) returns (out': string)
    ensures out' == out + DirectoryText(root, files)
  {
    var text := (g: ListedFile) => FileText(root, g);
    out' := out;
    var i := 0;
    while i < |files|
      invariant 0 <= i <= |files|
      invariant out' == out + Emit(files[..i], text)
    {
      var before := out';
      out' := WriteFile(out', root, files[i]);
      assert out' == before + text(files[i]);
      EmitStep(out, before, files, i, text);
      i := i + 1;
    }
    assert files[..|files|] == files;
  }

  /** The text of a directory is the text of its files' blocks, concatenated. */
  lemma DirectoryTextAppend(root: string, a: seq<ListedFile>, b: seq<ListedFile>)
    ensures DirectoryText(root, a + b) == DirectoryText(root, a) + DirectoryText(root, b)
  {
    EmitAppend(a, b, f => FileText(root, f));
  }

  /** An ignored file contributes nothing: the output is as if it were not listed. */
  lemma IgnoredFileWritesNothing(root: string, a: seq<ListedFile>, f: ListedFile, b: seq<ListedFile>)
    requires Ignored(Join(root, f.name))
    ensures DirectoryText(root, a + [f] + b) == DirectoryText(root, a + b)
  {
    var text := (g: ListedFile) => FileText(root, g);
    assert Emit([f], text) == [] by {
      assert [f][..0] == [];
      assert FileText(root, f) == [];
    }
    EmitAppend(a + [f], b, text);
    EmitAppend(a, [f], text);
    EmitAppend(a, b, text);
    assert Emit(a, text) + [] == Emit(a, text);
  }

  /** A record holding only the type tag is written as its header and a
      blank line. */
  lemma TagOnlyBlock(filename: string, d: Dict)
    requires |d| == 1 && d[0].key == TypeKey
    ensures Block(filename, d) == Header(filename, d[0].value) + "\n"
  {
    BodyOfTypeOnly(d);
  }

  /** A file whose I/O failed, or whose suffix is not `.py`, `.css` or `.js`,
      gets its header and no body lines. */
  lemma TagOnlyFile(root: string, f: ListedFile)
    requires '/' !in f.name && !Ignored(f.name)
    requires f.load.LoadError? ||
      (!EndsWith(f.name, ".py") && !EndsWith(f.name, ".css") && !EndsWith(f.name, ".js"))
    ensures FileText(root, f) == Header(f.name, Extension(f.name)) + "\n"
  {
    var d := FileRecord(root, f);
    assert d == [Entry(TypeKey, Extension(f.name))] by {
      ExtractInfoOfJoin(root, f.name, f.load);
      if f.load.LoadError? {
        FailureKeepsTypeTag(f.name);
      } else {
        OtherSuffixTypeTagOnly(f.name, f.load);
      }
    }
    assert Basename(f.name) == f.name by {
      BasenameOfPlainName(f.name);
    }
    TagOnlyBlock(f.name, d);
  }

  /** A record holding the type tag and the content is written as the header,
      one `content` line and a blank line. */
  lemma ContentOnlyBlock(filename: string, d: Dict)
    requires |d| == 2 && d[0].key == TypeKey && d[1].key == ContentKey
    ensures Block(filename, d) == Header(filename, d[0].value) + EntryLine(d[1]) + "\n"
  {
    assert d[..1][..0] == [];
    assert d[..|d| - 1] == d[..1];
    BodyOfTypeOnly(d[..1]);
    assert ContentKey != TypeKey;
  }

  /** A stylesheet or script is written as its header and one `content` line
      holding the text `read()` returned. */
  lemma ContentFile(root: string, name: string, text: string, decls: seq<Declaration>)
    requires '/' !in name
    requires EndsWith(name, ".css") || EndsWith(name, ".js")
    ensures FileText(root, ListedFile(name, Loaded(text, decls))) ==
      Header(name, Extension(name)) + EntryLine(Entry(ContentKey, text)) + "\n"
  {
    var f := ListedFile(name, Loaded(text, decls));
    var d := FileRecord(root, f);
    assert FileText(root, f) == Block(name, d) by {
      BasenameOfPlainName(name);
    }
    ContentFileRecord(root, f);
    ContentOnlyBlock(name, d);
  }

  /** The record of a listed stylesheet or script. */
  lemma ContentFileRecord(root: string, f: ListedFile)
    requires '/' !in f.name && f.load.Loaded?
    requires EndsWith(f.name, ".css") || EndsWith(f.name, ".js")
    ensures FileRecord(root, f) == [Entry(TypeKey, Extension(f.name)), Entry(ContentKey, f.load.text)]
  {
    ExtractInfoOfJoin(root, f.name, f.load);
    ContentNotIgnored(f.name);
    ContentRecord(f.name, f.load.text, f.load.declarations);
  }

  /** A `.py` declaration named `type` replaces the extension in the header and
      gets no line of its own. */
  lemma TypeDeclarationReplacesHeader(root: string, name: string, text: string, decls: seq<Declaration>, i: int)
    requires '/' !in name && EndsWith(name, ".py") && !Ignored(name)
    requires 0 <= i < |decls| && decls[i].name == TypeKey
    requires forall j :: i < j < |decls| ==> decls[j].name != TypeKey
    ensures StartsWith(FileText(root, ListedFile(name, Loaded(text, decls))),
      Header(name, DocValue(decls[i].docstring)))
  {
    var d := FileRecord(root, ListedFile(name, Loaded(text, decls)));
    assert Get(d, TypeKey) == Some(DocValue(decls[i].docstring)) by {
      ExtractInfoOfJoin(root, name, Loaded(text, decls));
      PyLastDeclarationWins(name, text, decls, i);
    }
    assert Basename(name) == name by {
      BasenameOfPlainName(name);
    }
    BlockFrame(name, d);
  }
}
