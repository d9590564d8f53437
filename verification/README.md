# Documentation generator: per-file records and Markdown blocks

`dev_generate_docs.py` walks a directory tree and writes one Markdown file
describing the files it finds. This project models the pure logic of that
script and proves properties of the model:

- `extract_info_from_file` builds one record per file:
  - it takes the file's extension with `os.path.splitext`, lower-cases it and
    tests it against the ignore list; an ignored file gets the empty record;
  - it seeds the record with `type` mapped to the extension, in its original case;
  - a `.py` file gets one entry per distinct name of a function, async function
    or class definition. The entries follow the order in which `ast.walk` first
    meets each name, and hold the stripped docstring of the name's last
    definition, or `No docstring found.`. A definition named `type` gets no
    entry of its own: it overwrites the type tag;
  - a `.css` or `.js` file gets its text, as a text-mode `read()` returns it,
    under `content`;
  - a failure inside the `try` block leaves the record as seeded.
- `generate_documentation_md` works per directory level:
  - it prunes the subdirectories `os.walk` may enter: names starting with `.`
    and the names on the excluded list;
  - for every file with a non-empty record it writes a header line, one line
    per key other than `type`, in insertion order, and a blank line.

The record is a Python `dict`, so the model keeps insertion order:
- assigning to a key that is already present keeps its position and replaces its value;
- assigning to a new key appends it.

Because of this, a `.py` declaration named `type` overwrites the type tag,
and the header then shows that docstring instead of the extension.

The modules follow the program's structure:

- `Strings`: Python's `str.isspace`, `strip`, `lower`, `startswith`,
  `endswith` and `rfind`.
- `Paths`: POSIX `os.path.splitext`, `basename` and `join`.
- `OrderedDict`: the insertion-ordered dict, item assignment, and a sequence
  of assignments.
- `Extract`: `extract_info_from_file`. The outcome of the file's I/O and
  parsing is an input (`Load`).
- `Report`: the directory pruning and the Markdown text written for the files
  of one directory. The output file is a string that each `write` extends.
- `Wrappers`: `Option`.

The ignore list holds `LICENSE`, `.gitignore` and `.gitattributes`, which look
like file names, but line 20 compares the entries only with the lower-cased
extension:
- a file named `.gitignore` or `.gitattributes` has no extension, because
  `splitext` skips leading dots;
- no lower-cased extension can equal `LICENSE`.

So the code never skips these three files. Each gets a record holding only an
empty type tag, and is written as `# File LICENSE ()` followed by a blank line
(`Extract.LicenseEntryNeverMatches`, `Extract.NamedFilesNotIgnored`).

The suffix tests that pick the branch are case-sensitive and look at the whole
path, not at the extension. So `x.PY` gets the type tag alone, and a file named
exactly `.py` is parsed although its type is empty
(`Extract.DotPyIsParsedWithEmptyType`).

## Model

| member | source | states |
|---|---|---|
| Strings.Strip | dev_generate_docs.py:33 | `strip()` leaves no Python whitespace at either end, and the result is the input with whitespace removed from the two ends only |
| Strings.StripUnique | dev_generate_docs.py:33 | any trimmed string the input strips to equals `Strip` of the input, so the contract determines `strip` completely |
| Strings.StripIdempotent | dev_generate_docs.py:33 | stripping a stripped docstring changes nothing |
| Paths.Splitext | dev_generate_docs.py:18 | root followed by extension is the path; the extension is empty or a single leading `.` followed by neither `.` nor `/` |
| Paths.ExtensionCharacterisation | dev_generate_docs.py:18 | a path has an extension exactly when its last component has a `.` with a non-`.` character somewhere before it |
| Paths.ExtensionOfBasename | dev_generate_docs.py:18 | the extension depends only on the last path component |
| Paths.ExtensionOfSuffix | dev_generate_docs.py:36 | a path ending in an extension-shaped suffix such as `.css` has that suffix as its extension, or none |
| Paths.Basename | dev_generate_docs.py:62 | the basename has no `/`, ends the path, and is preceded by `/` when shorter than the path |
| Paths.Join | dev_generate_docs.py:59 | an absolute file name replaces the directory; otherwise the result is the directory and the name, with a `/` between them exactly when the directory is non-empty and does not already end in `/` |
| Paths.BasenameOfJoin | dev_generate_docs.py:59-62 | the basename of `join(root, name)` is `name` when `name` has no `/` |
| Paths.ExtensionOfJoin | dev_generate_docs.py:59-60 | joining a directory in front of a file name does not change its extension |
| Paths.EndsWithJoin | dev_generate_docs.py:26-36 | a suffix test without `/` on the joined path answers as on the file name alone |
| OrderedDict.Get | dev_generate_docs.py:63 | a lookup succeeds exactly for the keys present, and returns the value of an entry with that key |
| OrderedDict.Put | dev_generate_docs.py:33-38 | after `d[k] = v`, `k` maps to `v` and every other key looks up as before |
| OrderedDict.PutKeys | dev_generate_docs.py:33-38 | assignment keeps a present key in place and appends a new key at the end |
| OrderedDict.PutNewKey | dev_generate_docs.py:38 | assigning a key not yet present appends exactly one entry |
| OrderedDict.PutKeepsUnique | dev_generate_docs.py:33-38 | assignment never makes a key occur twice |
| OrderedDict.PutRefinesMapUpdate | dev_generate_docs.py:33 | forgetting the order, assignment is map update `m[k := v]` |
| OrderedDict.PutAllKeys | dev_generate_docs.py:28-35 | after a sequence of assignments the keys are the old keys, then the new keys in the order of their first assignment, each once |
| OrderedDict.DedupKeepsFirstOccurrenceOrder | dev_generate_docs.py:28-35 | the deduplicated key list orders keys by their first occurrence |
| OrderedDict.PutAllLastAssignmentWins | dev_generate_docs.py:28-35 | a key assigned several times holds the value of its last assignment |
| OrderedDict.PutAllUnassignedKey | dev_generate_docs.py:28-35 | a key never assigned keeps its old lookup |
| Extract.DocValue | dev_generate_docs.py:31-35 | a missing or empty docstring gives `No docstring found.`; any other docstring gives its strip |
| Extract.Record | dev_generate_docs.py:23-38 | a record that is not ignored is non-empty, starts with the `type` key and has no repeated key |
| Extract.ExtractInfo | dev_generate_docs.py:17-41 | the record is empty exactly for an ignored extension; otherwise it starts with `type`, and it never repeats a key |
| Extract.FailureKeepsTypeTag | dev_generate_docs.py:23-41 | when the `try` block fails, a file that is not ignored gets `type` mapped to its extension, and nothing else |
| Extract.ContentRecord | dev_generate_docs.py:36-38 | a `.css` or `.js` file gets the type tag, then `content` holding the text `read()` returned, unchanged |
| Extract.OtherSuffixTypeTagOnly | dev_generate_docs.py:23-41 | a path not ending in `.py`, `.css` or `.js` gets the type tag alone, whatever its I/O did |
| Extract.ContentNotIgnored | dev_generate_docs.py:17-20 | a path ending in `.css` or `.js` is never ignored |
| Extract.ContentExtensionsNotIgnored | dev_generate_docs.py:17 | `.css` and `.js` are not on the ignore list |
| Extract.EmptyExtensionNotIgnored | dev_generate_docs.py:17-20 | the empty extension is not on the ignore list |
| Extract.PyKeyOrder | dev_generate_docs.py:23-35 | a parsed `.py` file's keys are `type`, then the declared names in the order of their first definition, each once |
| Extract.PyLastDeclarationWins | dev_generate_docs.py:28-35 | a name maps to the docstring value of its last declaration, even when the name is `type` |
| Extract.PyUndeclaredKey | dev_generate_docs.py:23-35 | a key no declaration names is absent from a parsed `.py` file's record, except `type`, which keeps the extension |
| Extract.ExtractInfoOfJoin | dev_generate_docs.py:59-60 | a listed file's record depends only on its name, not on the directory it is joined to |
| Extract.KindOfJoin | dev_generate_docs.py:26-36 | the branch a joined path takes depends only on the file name |
| Extract.LicenseEntryNeverMatches | dev_generate_docs.py:17-20 | no lower-cased extension equals the ignore entry `LICENSE` |
| Extract.NamedFilesNotIgnored | dev_generate_docs.py:17-23 | files named `LICENSE`, `.gitignore` or `.gitattributes` are not skipped, and each gets only an empty type tag |
| Extract.PlainNameWithoutExtension | dev_generate_docs.py:17-41 | a name with no `.` after its first character, and none of the three branch suffixes, gets only an empty type tag |
| Extract.NoExtension | dev_generate_docs.py:18 | a name with no `.` after its first character has no extension |
| Extract.DotPyIsParsedWithEmptyType | dev_generate_docs.py:18-26 | a file named exactly `.py` is not ignored and is parsed, and its type tag is empty |
| Report.PruneDirs | dev_generate_docs.py:56 | a name survives pruning exactly when it was listed, does not start with `.`, and is not excluded |
| Report.PruneCounts | dev_generate_docs.py:56 | each kept name occurs as often as before pruning, and each dropped name not at all |
| Report.PruneIsSubsequence | dev_generate_docs.py:56 | the kept names keep their relative order |
| Report.PruneAppend | dev_generate_docs.py:56 | pruning a concatenation is concatenating the pruned parts |
| Report.PruneIdempotent | dev_generate_docs.py:56 | pruning again changes nothing |
| Report.WalkPrune | dev_generate_docs.py:52-56 | with the script's excluded list, a name survives exactly when it does not start with `.` and is not on the list |
| Report.Block | dev_generate_docs.py:61-68 | a file's text is empty exactly when its record is empty |
| Report.BlockFrame | dev_generate_docs.py:63-68 | a non-empty record's text opens with its header, showing the value under `type`, and closes with a newline |
| Report.BodyOfTypeOnly | dev_generate_docs.py:64-66 | a record whose only key is `type` writes no body lines |
| Report.BodyAppend | dev_generate_docs.py:64-66 | the body lines of consecutive entries are written in entry order |
| Report.WriteBody | dev_generate_docs.py:64-66 | the loop over the record appends exactly the body lines |
| Report.WriteBlock | dev_generate_docs.py:61-68 | writing one file appends exactly its text, and nothing for an empty record |
| Report.FileRecord | dev_generate_docs.py:59-60 | a listed file's record is empty or holds the `type` key, so the header's lookup succeeds |
| Report.WriteFile | dev_generate_docs.py:59-68 | handling one listed file appends exactly that file's text |
| Report.WriteDirectory | dev_generate_docs.py:58-68 | the loop over one directory's files appends the files' texts in listing order |
| Report.DirectoryTextAppend | dev_generate_docs.py:58-68 | a directory's text is the concatenation of the texts of its files, in order |
| Report.IgnoredFileWritesNothing | dev_generate_docs.py:58-61 | an ignored file leaves the output as if it were not listed |
| Report.TagOnlyBlock | dev_generate_docs.py:63-68 | a record holding only the type tag is written as its header and a blank line |
| Report.TagOnlyFile | dev_generate_docs.py:59-68 | a file whose I/O failed, or with none of the three suffixes, is written as `# File name (ext)` and a blank line |
| Report.ContentOnlyBlock | dev_generate_docs.py:63-68 | a record of type tag and content is written as the header, one `content` line and a blank line |
| Report.ContentFileRecord | dev_generate_docs.py:59-60 | a listed stylesheet or script gets the type tag of its name and its text under `content` |
| Report.ContentFile | dev_generate_docs.py:59-68 | a stylesheet or script is written as its header, one `content` line holding the text `read()` returned, and a blank line |
| Report.TypeDeclarationReplacesHeader | dev_generate_docs.py:63 | when a `.py` file declares `type`, the header shows that declaration's docstring value instead of the extension |

## Left out

- The `os.walk` traversal: the recursion, the descent into kept subdirectories and the listing order are not modelled. The model prunes one directory level (`Report.PruneDirs`) and handles one directory's files in the order given (`Report.WriteDirectory`).
- File I/O: opening, UTF-8 decoding and reading are replaced by the input `Load`. Its `text` is what `read()` returns in text mode, after universal-newline translation: `\r\n` and a lone `\r` in the file reach `content` as `\n`. The model does not relate `text` to the file's bytes. `LoadError` stands for any exception in the `try` block. Opening and truncating the output file is not modelled either; the output is a string.
- `ast.parse`, `ast.walk` and `ast.get_docstring` are Python's own parser. They are replaced by a sequence of `Declaration`s: the name and returned docstring of each function, async function or class definition, in walk order, with the `isinstance` filter already applied. Docstring cleaning by `get_docstring` is part of that input. A syntax error is a `LoadError`.
- The `print` of the error message in the `except` branch is a diagnostic on standard output and does not affect the result.
- The `__main__` block: it resolves the script's directory and a fixed output name. `Path.resolve` is file-system I/O.
- The unused `re` import, and the commented-out alternative line format on line 67.
- Strings.Lower: only ASCII capitals are lowered, while Python's `str.lower` lowers all of Unicode. For membership in the ignore list this makes no difference. The list is ASCII without `k`, and the only non-ASCII characters whose lower case contains ASCII letters are the Kelvin sign (lowered to `k`) and `İ` (lowered to `i` followed by a combining dot).
- Paths.Splitext, Paths.Basename, Paths.Join: POSIX behaviour only (`posixpath`). On Windows, `ntpath` also treats `\` as a separator and handles drive letters.
- Characters the output cannot encode: Dafny strings hold Unicode scalar values only, while a Python `str` can hold lone surrogates. `os.walk` yields them for file names that are not valid UTF-8, and a docstring can contain one through a `\udc80` escape. Writing such a name or docstring with `md_file.write` (lines 63 and 66, outside the `try`) raises `UnicodeEncodeError`, which ends the whole run and leaves a partial report. The model cannot represent these strings, so it promises nothing about them, including the per-file recovery of lines 39-40.
