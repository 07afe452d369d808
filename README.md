# Tar backend of lyncs_io, modelled in Dafny

`lyncs_io/tar.py` implements the tar format of lyncs_io. `save(arr, filename)`
writes an array as a text file with one element per line and adds it as a
member to a tarball. `load(filename)` reads such a member back as a list of
strings. Both choose the tarfile compression suffix with `_get_mode`. That
function takes the final extension of the tarball name, as `os.path.splitext`
gives it, and looks it up in the `modes` dictionary.

This project models that core:

- `Text`: first and last occurrence of a character, occurrence counts,
  concatenation of lines, and removing a leading or trailing run of a
  character as `str.lstrip`/`str.rstrip` do, which the other modules build on.
- `PosixPath`: `os.path.splitext` on POSIX paths. The extension starts at the
  last `.` of the final component, but only when something other than dots
  comes before that `.` within the component.
- `TarErrors`: the exceptions the core raises, as values: `ValueError`,
  `FileNotFoundError`, tarfile's `ReadError` and `KeyError` from `getmember`.
- `TarModes`: the `modes` table in its insertion order, the `all_extensions`
  list, and `_get_mode` as a search of the table for the final extension.
- `TarOpen`: the mode string `save` and `load` pass to `tarfile.open`. Whether
  the tarball exists is an input.
- `TarLines`: the write loop of `save` (each element followed by `'\n'`), and
  the comprehension of `load` (`readlines()`, then `replace('\n', '')` on
  each line).
- `Tar`: `save` and `load` over an abstract tarball, represented by its
  compression suffix and a map from member name to the content of the
  member's latest copy. Names are stored and looked up as tarfile does:
  without leading `/`s when stored, without trailing `/`s when looked up.

The model follows the code throughout. The comment on line 25 says `.gz`,
`.bz2` and `.xz` should follow `.tar`, but the code only looks at the final
extension. So `a.gz` and `a.tar.gz` both give `:gz`, and the model does the
same. The comment on line 26 explains why the `.tar` prefix is missing from
the listed extensions: `splitext` yields only the final extension. The model
keeps the table as the code has it, `':': ['.tar']` on line 30 included.

## Model

| member | source | states |
|---|---|---|
| PosixPath.SplitExt | lyncs_io/tar.py:110 | root and extension concatenate back to the name; the extension is empty or a single `.` followed by no `.` and no `/` |
| PosixPath.SplitExtAppend | lyncs_io/tar.py:110 | a single extension appended to a name whose final component is not all dots splits off again, the rest unchanged |
| PosixPath.SplitExtNoDot | lyncs_io/tar.py:110 | a name with no `.` in its final component has an empty extension |
| PosixPath.SplitExtRootHasNonDot | lyncs_io/tar.py:110 | conversely, a non-empty extension leaves a root whose final component is not all dots, so leading dots never start an extension (`..gz` and `a/..tar` have none) |
| PosixPath.SplitExtHidden | lyncs_io/tar.py:110 | a final component made of one leading dot followed by dot-free text (`.tar`) has an empty extension |
| TarModes.Modes | lyncs_io/tar.py:24-31 | the `modes` dictionary as a sequence of (key, extensions) pairs in insertion order |
| TarModes.AllExtensions | lyncs_io/tar.py:11-22 | the `all_extensions` list, in its order |
| TarModes.ModeKeysOfModes | lyncs_io/tar.py:24-31 | the set of mode suffixes the other contracts use is exactly the set of keys of `modes` |
| TarModes.FindMode | lyncs_io/tar.py:111-113 | the search finds nothing exactly when no entry lists the extension; otherwise it returns the key of the first entry that lists it |
| TarModes.ModeOfExtension | lyncs_io/tar.py:111-114 | Ok exactly when some entry of `modes` lists the extension, and then the result is a key of `modes` whose list holds it; otherwise the ValueError names the extension |
| TarModes.GetMode | lyncs_io/tar.py:106-114 | a successful result is a key of `modes`; a failure is the ValueError naming the final extension of the name |
| TarModes.ModesDisjoint | lyncs_io/tar.py:24-31 | no extension is listed under two keys of `modes` |
| TarModes.ModesAreExtensions | lyncs_io/tar.py:24-31 | every listed extension is a single extension, so `splitext` can yield it |
| TarModes.FindModeUnique | lyncs_io/tar.py:111-113 | in a disjoint table the entry holding the extension is the one returned: the first match is the only match |
| TarModes.FindModeOrderIndependent | lyncs_io/tar.py:111-113 | for a disjoint table, any reordering of its entries gives the same search result: the iteration order does not matter |
| TarModes.GetModeFinalExtension | lyncs_io/tar.py:106-114 | a name whose final component has a character other than `.` before an extension listed under a key gets that key, whatever else comes before (a bare `.gz` or `a/..tgz` has no extension, see `TarModes.GetModeHidden` and `PosixPath.SplitExtRootHasNonDot`) |
| TarModes.GetModeUnsupported | lyncs_io/tar.py:110-114 | a name whose final extension is listed under no key raises the ValueError naming that extension |
| TarModes.GetModeSameExtension | lyncs_io/tar.py:110-114 | two names with the same final extension get the same outcome |
| TarModes.ExtensionOfName | lyncs_io/tar.py:110 | for a name whose final component has a character other than `.`, the final extension of that name followed by a single extension is that extension |
| TarModes.TarStem | lyncs_io/tar.py:110 | a name whose final component is not all dots keeps that property after `.tar` is appended |
| TarModes.GetModeCompound | lyncs_io/tar.py:24-31 | after a name whose final component has a character other than `.`, a listed extension gives its key with or without `.tar` before it (`a.gz`, `a.tar.gz`, `a.tgz` give `:gz`; `a.tar` gives `:`) |
| TarModes.GetModeHidden | lyncs_io/tar.py:106-114 | a tarball named just like `.tar` has no extension and is rejected with a ValueError naming the empty extension |
| TarModes.UnlistedExtensionsUnlisted | lyncs_io/tar.py:11-31 | the final extensions of `.tar.lz`, `.tar.lzma`, `.tlz`, `.tar.lzo`, `.tar.Z`, `.tZ`, `.taZ`, `.tar.zst` and `.tzst` are single extensions that `modes` does not list |
| TarModes.GetModeUnlisted | lyncs_io/tar.py:11-31 | names ending in those entries of `all_extensions` raise a ValueError naming the final extension, with or without `.tar` before it |
| TarModes.UnlistedFromAllExtensions | lyncs_io/tar.py:11-22 | each of those final extensions comes from `all_extensions`, either alone or after `.tar` |
| TarOpen.SaveMode | lyncs_io/tar.py:51-58 | it fails exactly when `_get_mode` fails, with the same ValueError; otherwise it gives `"a"` exactly when the tarball exists, and `"w"` followed by a key of `modes` when it does not |
| TarOpen.LoadMode | lyncs_io/tar.py:77-83 | an unsupported extension raises ValueError; a supported one with no tarball raises FileNotFoundError naming the path; otherwise the mode is `"r"` followed by a key of `modes` |
| TarOpen.UnsupportedBeforeExistence | lyncs_io/tar.py:51-58 | an unsupported extension gives the same ValueError from save and load, whether or not the tarball exists |
| TarOpen.CreatedTarballReadsBack | lyncs_io/tar.py:52-58 | a tarball save creates with `"w"` plus a suffix is opened by load with `"r"` plus the same suffix |
| TarLines.Encode | lyncs_io/tar.py:64-65 | the text the write loop produces, with at least one character per element; its framing is stated by the lemmas below |
| TarLines.EncodeAppend | lyncs_io/tar.py:64-65 | writing one more element appends that element and its `'\n'` |
| TarLines.EncodeCons | lyncs_io/tar.py:64-65 | the first element's line comes first in the text |
| TarLines.WriteData | lyncs_io/tar.py:64-65 | the text the write loop produces is the encoding of the array: every element followed by `'\n'` |
| TarLines.EncodeNewlineCount | lyncs_io/tar.py:64-65 | with no `'\n'` in any element, the text holds exactly one `'\n'` per element |
| TarLines.EncodeTerminated | lyncs_io/tar.py:64-65 | the text is empty exactly for the empty array, and otherwise ends with `'\n'` |
| TarLines.ReadLines | lyncs_io/tar.py:87 | the lines concatenate back to the member's content; each line is non-empty and has a `'\n'` only at its end |
| TarLines.ReadLinesTerminated | lyncs_io/tar.py:87 | every line except the last ends with `'\n'` |
| TarLines.ReadLinesLastTerminated | lyncs_io/tar.py:87 | non-empty content gives at least one line, and the last line ends with `'\n'` exactly when the content does |
| TarLines.ReadLinesFirstLine | lyncs_io/tar.py:87 | the first line runs up to and including the first `'\n'` |
| TarLines.RemoveNewlines | lyncs_io/tar.py:87 | `replace('\n', '')` leaves no `'\n'`, removes exactly as many characters as there were `'\n'`, and leaves a newline-free line unchanged |
| TarLines.RemoveNewlinesAppend | lyncs_io/tar.py:87 | removing newlines distributes over concatenation |
| TarLines.LineLosesTerminator | lyncs_io/tar.py:87 | a line as readlines yields it loses only its terminator |
| TarLines.StripLines | lyncs_io/tar.py:87 | one element per line, and no element holds `'\n'` |
| TarLines.Decode | lyncs_io/tar.py:87 | the comprehension of `load`: one element per line `readlines()` yields, none holding `'\n'` |
| TarLines.StripLinesAt | lyncs_io/tar.py:87 | element k is line k with its newlines removed |
| TarLines.DecodeLines | lyncs_io/tar.py:87 | load returns one element per line, each its line with at most the final `'\n'` removed |
| TarLines.DecodeFirstLine | lyncs_io/tar.py:87 | the first element is the text before the first `'\n'` |
| TarLines.ReadLinesEncode | lyncs_io/tar.py:64-65 | reading the written text of newline-free elements gives the elements back, each with its `'\n'` |
| TarLines.RoundTrip | lyncs_io/tar.py:64-65 | load gives back exactly the array save wrote, when no element holds `'\n'` |
| TarLines.LineCount | lyncs_io/tar.py:64-65 | one line per element of a newline-free array, and as many elements back |
| TarLines.SplitElement | lyncs_io/tar.py:64-65 | an element holding a `'\n'` comes back as two elements |
| TarLines.EncodeDecode | lyncs_io/tar.py:87 | a member text that is empty or ends with `'\n'` is exactly what save writes for the array load returns |
| Tar.ArcName | lyncs_io/tar.py:67 | the name `tar.add(..., arcname=leaf)` stores the member under: the leaf with its leading `/`s removed, so it never starts with `/` |
| Tar.LookupName | lyncs_io/tar.py:85 | the name `tar.getmember(leaf)` looks for: the leaf with its trailing `/`s removed, so it never ends with `/` |
| Tar.Save | lyncs_io/tar.py:40-70 | ValueError for an unsupported extension. A new tarball gets the suffix `_get_mode` gives and the one member. Appending to an existing tarball succeeds exactly when it is uncompressed, and raises ReadError otherwise. On success the member stored under the arcname of the leaf holds the written text, and every other member and the compression stay as they were |
| Tar.Load | lyncs_io/tar.py:73-99 | ValueError for an unsupported extension, then FileNotFoundError for a missing tarball. A tarball compressed otherwise raises ReadError, and a tarball with no member under the lookup name raises getmember's KeyError naming the leaf. It succeeds exactly when the tarball has the name's compression and holds a member under the lookup name, and then returns that member's lines with newlines removed |
| Tar.SaveKeepsConsistent | lyncs_io/tar.py:51-58 | after a save the tarball is still compressed as its name calls for |
| Tar.SaveThenLoad | lyncs_io/tar.py:40-99 | for a tarball compressed as its name calls for, loading under any name whose lookup name is the arcname of the saved leaf (`x` or `x/` after saving `x`) gives back the saved array, when no element holds `'\n'` |
| Tar.SavePlainThenLoad | lyncs_io/tar.py:40-99 | for a tarball compressed as its name calls for, a leaf with no `/` at either end loads back under the same name as the saved array, when no element holds `'\n'` |
| Tar.LeadingSlashNames | lyncs_io/tar.py:67 | `/x` is stored as `x`, while the lookup names of `/x` and `x` are themselves |
| Tar.LeadingSlashLeaf | lyncs_io/tar.py:67 | a leaf saved as `/x` into a new tarball is not found by loading `/x` (KeyError), and is found by loading `x` |
| Tar.SaveKeepsOtherMembers | lyncs_io/tar.py:62-67 | saving one member leaves what load returns unchanged for every name whose lookup name differs from the arcname of the saved leaf |
| Tar.SecondSaveIntoCompressedFails | lyncs_io/tar.py:55-58 | a second save into a tarball the first save created compressed raises ReadError |

## Left out

- Member names follow CPython's tarfile: `gettarinfo` removes leading `/`s
  from the arcname, and `getmember` removes trailing `/`s from the name it
  looks up, then compares names as they are. Other rewriting of names by
  tarfile (the `os.sep` replacement, name normalisation) is not modelled.
- File I/O: `tarfile`, `tempfile`, opening and closing files. The tarball is
  an abstract value whose members are represented by their latest content.
  tarfile's byte layout, headers and compression are not modelled.
- `os.path.exists`: whether the tarball exists is an input (`present`, or
  whether a stored tarball is given).
- `split_filename`: `lyncs_io/archive.py` is not part of this model. Save and
  load take the tarball path and the member name (`leaf`) already split.
- `str(elt)`: elements are taken as strings already. How Python prints other
  objects is not modelled.
- TarLines.WriteData, TarLines.Encode: `save` writes `data.txt` in text
  mode, which turns each `'\n'` into `os.linesep` and encodes in the locale's
  default encoding. The model assumes `'\n'` line ends and UTF-8 as that
  encoding. Where `os.linesep` is `"\r\n"`, every loaded element keeps a
  trailing `'\r'`, and under a non-UTF-8 locale a non-ASCII element can fail
  to decode; `TarLines.RoundTrip` and `Tar.SaveThenLoad` do not describe the
  program there.
- UTF-8: member contents are modelled as characters. The byte `0x0A` never
  occurs inside a multi-byte UTF-8 sequence, so splitting at `'\n'` gives the
  same lines.
- Error messages: each error carries the value its message interpolates (the
  extension, the path, the member name), not the formatted text.
- `os.path.splitext` on Windows: only the POSIX separator `/` is modelled.
- `head()` (lines 102-103) does nothing and has no model.
- The commented-out extraction code in `load` (lines 89-96) does not run and
  has no model.
- Tar.Save: tarfile's reasons for refusing to append are reduced to one fact.
  Append mode `"a"` on a compressed tarball raises ReadError, and on an
  uncompressed one it adds the member.
- Tar.Load: a tarball whose compression is not the one its name calls for
  raises ReadError. tarfile's own messages and its detection of damaged
  archives are not modelled.
