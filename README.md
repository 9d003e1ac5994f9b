# sprayview-go build step, modelled in Dafny

The program converts a directory of VTF spray textures to JPEG with an
external converter. It then lists the converted directory and groups the file
names into an index that maps a Steam ID to the spray IDs of that owner.
Finally it writes the index as JSON. This project models the parts of
`build.go` that make decisions:

- `go_strings.dfy` (module `GoStrings`): Go's `strings.Split` for a
  one-character separator, with `strings.Join` as its inverse. `CountChar`
  counts the separators.
- `preflight.dfy` (module `Preflight`): `checkFileExists` as a loop over the
  required names, and the stale-output rule in `main`. The rule decides
  whether the old JPEG directory is deleted before reconversion. `os.Stat`
  is a parameter, `stat: string -> StatResult`. Its result is a size, "does
  not exist" (`os.IsNotExist`) or any other error. The parameter is one
  snapshot of the filesystem taken once, so a name listed twice gets the
  same answer both times, where Go calls `os.Stat` again for each position.
- `sprays.dfy` (module `Sprays`): the grouping loop of `processSprayFiles`.
  Its input is the directory listing, a sequence of `(name, isDir)` entries
  in the order `Readdir` returns them. `ParseEntry` says what one entry
  contributes. `Index` is a key-by-key reference definition of the expected
  result: the keys are the Steam IDs some entry contributes to, and each
  key's list is `ValuesFor`, the contributed spray IDs in listing order.
  The loop method `ProcessSprayFiles` is proved equal to `Index`. The lemmas
  state what `Index` promises.

Two details of the code are easy to misread:

- The missing-file check reports a name only when the stat error satisfies
  `os.IsNotExist`. A name whose stat fails for any other reason, such as
  permission denied, counts as present. `MissingMembers` states this.
- The stale-output rule compares `os.Stat(...).Size()` of the two
  directories themselves, the size the operating system reports for each
  directory entry. `ShouldRemoveOutput` therefore takes the two reported
  sizes and computes no sum over the files inside.

## Model

| member | source | states |
|---|---|---|
| `GoStrings.Split` | build.go:75 | `strings.Split` on `_` gives one more piece than the name has underscores, and no piece contains an underscore |
| `GoStrings.JoinSplit` | build.go:75 | joining the pieces of a split with the separator gives back the original name, so no character is lost |
| `GoStrings.SplitJoin` | build.go:75 | splitting one or more underscore-free pieces that were joined with `_` gives back exactly those pieces |
| `GoStrings.SplitAtFirst` | build.go:75 | the text before the first separator is the first piece, and the rest is split on its own |
| `GoStrings.TwoPieces` | build.go:75-79 | a split into exactly two pieces means the name holds exactly one underscore, with the first piece before it and the second after it |
| `Preflight.CheckFileExists` | build.go:13-22 | the loop returns `Missing(files, stat)`: the required names whose stat says "does not exist", in input order (see `MissingMembers`, `MissingConcat`). The result is never longer than the input, so an empty input gives an empty result |
| `Preflight.MissingMembers` | build.go:15-18 | a name is reported iff it is listed and its stat error is "does not exist". Other stat errors do not report it |
| `Preflight.MissingLength` | build.go:13-22 | no more names are reported than were required |
| `Preflight.MissingConcat` | build.go:15-17 | the filter keeps input order: the names missing from a concatenation are those of the first part followed by those of the second |
| `Preflight.MissingExtremes` | build.go:13-22 | if no required name's stat reports "does not exist" (each exists or fails for another reason), nothing is reported; if every stat reports "does not exist", all names are reported in input order |
| `Preflight.ShouldRemoveOutput` | build.go:132-138 | the destination is removed iff both stats succeed and the source's reported size is strictly larger than the destination's |
| `Preflight.RemovalAsymmetric` | build.go:132-138 | the rule never removes in both directions, and equal sizes never cause a removal |
| `Sprays.ParseEntry` | build.go:72-79 | an entry contributes iff it is not a directory and its name holds exactly one underscore. It then contributes the text before and after that underscore, neither containing an underscore |
| `Sprays.ParseJoinedName` | build.go:75-79 | any underscore-free halves, empty ones included (`"a_"`, `"_"`), come back as the key and value of the file named by joining them |
| `Sprays.NameWithoutDelimiter` | build.go:75-78 | a name without an underscore is skipped, not treated as an error |
| `Sprays.ProcessSprayFiles` | build.go:71-86 | the loop builds exactly `Index(files)`. Its keys are the Steam IDs some entry contributes to, each key maps to that ID's spray IDs in listing order, and the total number of values equals the number of contributing entries |
| `Sprays.KeysAreContributed` | build.go:80-85 | a Steam ID is a key iff its list of contributed sprays is non-empty |
| `Sprays.IndexKeys` | build.go:80-85 | keys are exactly the Steam IDs with contributions, and every key maps to a non-empty list |
| `Sprays.IndexStep` | build.go:79-85 | one more entry either leaves the index unchanged or appends its spray ID to its Steam ID's list, starting from the empty list when the key is new. Every other key is unchanged |
| `Sprays.ValuesForMembers` | build.go:79-85 | a spray ID is listed under a Steam ID iff some entry of the listing parses to that pair |
| `Sprays.IndexFromEntries` | build.go:71-86 | every value in the index comes from a plain file named `<key>_<value>`, and every contributing file's spray is in its key's list |
| `Sprays.IgnoredEntry` | build.go:72-78 | an entry that contributes nothing (a directory, or a name with zero or two or more underscores) can be removed from anywhere in the listing without changing the index |
| `Sprays.DirectoryIgnored` | build.go:72-74 | a directory entry never changes the index, whatever its name |
| `Sprays.ValuesForConcat` | build.go:71-86 | the values of a concatenated listing are those of the first part followed by those of the second |
| `Sprays.TotalValuesAppend` | build.go:84-85 | appending one spray to one key's list raises the index's total by exactly one |
| `Sprays.IndexTotal` | build.go:71-86 | no spray is lost or duplicated: the index holds as many values as the listing has contributing entries |
| `Sprays.GroupingSample` | build.go:71-86 | two sprays of one owner (possibly equal), one of another owner, then an ignored entry, give two keys. The first key's list keeps both sprays in listing order |

## Left out

- The I/O in `processSprayFiles` (build.go:56-69): `os.MkdirAll`, `os.Open`, `Readdir` and `Close`, with their error returns. The model starts from the listing `Readdir` returned, in whatever order it returned it.
- `convertVTFtoJPG` (build.go:33-49): it only starts the external converter with a fixed argument vector and waits for it.
- `writeSpraysToJSON` (build.go:91-107): a thin wrapper over `encoding/json` and `bufio`, which are not part of this model. JSON key order is therefore not modelled either.
- `checkDirectoryExists` (build.go:24-31) and the `os.RemoveAll` call (build.go:135): filesystem I/O. Only the decision around the removal is modelled.
- The sequencing in `main` (build.go:109-157): the abort on missing files, path construction with `filepath.Abs` and `"\\"` separators, and early returns on errors. These are platform path handling and control flow over library calls.
- All `fmt.Println` progress output. This includes the "success" line that `checkFileExists` prints even for a missing file.
- `GoStrings.Split`: covers only a non-empty, one-character separator, because that is the only way the program calls `strings.Split`.
- Sizes are unbounded integers rather than Go's `int64`. The comparison is the same for every value the two stats can report.
- Changes to the filesystem between two `os.Stat` calls of one run: `stat` is a single snapshot, so the model does not capture a file that appears or disappears while `checkFileExists` is running.
