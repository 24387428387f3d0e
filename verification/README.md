# gitgo `cat-file`: object names, object framing and the commit grammar

This project models the reading side of gitgo's `cat-file` in Dafny:

- **`NewSha`** turns a hexadecimal object name into the 20-byte array Git
  uses as an identifier.
- **`CatFile`** maps a name to its file `.git/objects/<first two>/<rest>`
  and yields the inflated text.
- **`parseObj`** splits that text into the header `type size`, a NUL byte
  and a body. It reads the body line by line as commit metadata:
  - the `tree`, `parent`, `author` and `committer` keys are recognised;
  - the first whitespace-only line ends the metadata;
  - everything after that line is the message.
- **`NewObject`** composes the two.

The Go library functions the code relies on are modelled as well, with the
semantics the code depends on: `strings.Fields` (Unicode white space),
`strings.Split`, `strings.Index`, `strings.Join` and `hex.DecodeString`.

Modules, one per file:

| file | module | contents |
|---|---|---|
| `wrappers.dfy` | `Wrappers` | `Option`, `Result` |
| `strings.dfy` | `GoStrings` | `Fields`, `Split`, `IndexOf`, `Join` and their algebra |
| `sha.dfy` | `Sha` | hex decoding and encoding, `NewSha` |
| `objects.dfy` | `Objects` | the four keys, the `GitObject` record, errors |
| `header.dfy` | `Header` | header and body around the first NUL |
| `commit.dfy` | `CommitBody` | the line scan, a scan-free reference definition, and the lemmas tying the two together |
| `encoding.dfy` | `Encoding` | the canonical text of a record, and the round trips |
| `parser.dfy` | `ObjectParser` | `parseObj` |
| `locator.dfy` | `Locator` | the object path, `CatFile`, `NewObject` |

### Where the model follows the code rather than the documented format

- A text without a NUL byte is not rejected. `strings.Index` returns -1,
  so `obj[nullIndex+1:]` is the whole text: it is both the header and the
  body (`Header.Body`, `ObjectParser.WithoutNulUnknownType`).
- The body of every object type is parsed with the commit grammar. The
  type is never checked.
- A missing `tree` line is not an error; the field stays empty.
- Repeated `tree`, `author` or `committer` lines are accepted. The last
  one wins (`CommitBody.LastValueIsLast`).
- Go panics are modelled as errors:
  - a header with fewer than two fields becomes `MalformedHeader`;
  - a `tree` or `parent` line with no value becomes `MissingValue`.

## Model

| member | source | states |
|---|---|---|
| Sha.NewSha | cat-file.go:23-31 | A valid hex name of at most 40 digits gives exactly 20 bytes: byte i is the value of digit pair i (high nibble first) and every byte past the decoded ones is zero |
| Sha.ShaOfName | cat-file.go:23-31 | Converting the 40-digit spelling of any 20-byte identifier gives back that identifier |
| Sha.DecodeEncode | cat-file.go:25 | Decoding the lower-case spelling of any byte string is valid hex and yields the same bytes |
| Sha.EncodeDecode | cat-file.go:25 | Every lower-case hex name is the spelling of the bytes it decodes to, so distinct lower-case names decode to distinct byte strings (`NewSha`'s zero padding can still make names of different lengths give the same 20-byte array) |
| Sha.DecodeHex | cat-file.go:25 | `hex.DecodeString` on valid input: one byte per pair of digits, byte i being the value of digits 2i and 2i+1, high nibble first, upper or lower case |
| Objects.ParseKey | cat-file.go:33-38 | A word is recognised as a key exactly when it is the name of one of tree, parent, author, committer, and then as that key |
| GoStrings.Fields | cat-file.go:85 | Every field is non-empty and contains no white space; there are no fields exactly when the text is all white space |
| GoStrings.IndexOf | cat-file.go:88 | -1 exactly when the character is absent; otherwise the position of its first occurrence |
| GoStrings.Split | cat-file.go:91 | Go's `strings.Split` on one character: at least one piece, and exactly one when the character does not occur; `SplitPieces` shows no piece contains the separator, and `JoinSplit`/`SplitJoin` make it the inverse of `Join` |
| GoStrings.Join | cat-file.go:96 | Go's `strings.Join`: no parts give the empty string and one part is returned unchanged; `JoinCons`/`JoinAppend` place exactly one separator between consecutive parts |
| GoStrings.JoinSplit | cat-file.go:91 | Joining the pieces of a split with the separator restores the text |
| GoStrings.FieldsOfJoin | cat-file.go:107-109 | Joining words free of white space with single spaces and splitting into fields again gives the same words |
| GoStrings.NormaliseIdempotent | cat-file.go:107-109 | The white-space normalisation applied to author and committer values changes nothing the second time |
| Header.HeaderText | cat-file.go:84-85 | The header is the text before the first NUL and contains no NUL; without a NUL it is the whole text |
| Header.Body | cat-file.go:88-90 | With a NUL the text is header, NUL, body; without one the body is the whole text |
| Header.FramingRoundTrip | cat-file.go:84-90 | For `type size\0body` the header fields are exactly type and size and the body comes back unchanged |
| ObjectParser.ParseObj | cat-file.go:82-90 | MalformedHeader exactly when the header has fewer than two fields; on success the type and size are the first two header fields |
| ObjectParser.ParseObjOutcome | cat-file.go:82-115 | An object decodes exactly when its header has at least two fields and no metadata line of its body is rejected; the record then holds the header's type and size, the last tree, author and committer, every parent in order, and the message after the first blank line |
| ObjectParser.WithoutNulUnknownType | cat-file.go:84-112 | A text with no NUL and no line feed is read as a single metadata line keyed by its type word, so an unknown type word is reported as an unknown field |
| CommitBody.ReadLine | cat-file.go:95 | A line ends the metadata exactly when it is empty or all white space |
| CommitBody.ReadLineSpec | cat-file.go:99-112 | tree and parent take the second field; author and committer values are the fields after the key joined by single spaces (the value has exactly those fields and is already normalised); a tree or parent line with no value is rejected with MissingValue naming that key; a line is rejected exactly when its key is unknown or a tree or parent line has no value, and an unknown key reports that key |
| CommitBody.SeparatorIndex | cat-file.go:93-98 | The separator is the first all-white-space line; every line before it has a field |
| CommitBody.ParseCommit | cat-file.go:91-115 | The body is split on line feeds and scanned from an empty record carrying the header's type and size; a result keeps that type and size, and a failure is UnknownField or MissingValue (`ParseCommitFailsIff` and `ParseCommitSpec` give the exact outcome) |
| CommitBody.Scan | cat-file.go:93-115 | A successful scan keeps the header's type and size and only appends parents; a failure is always UnknownField or MissingValue |
| CommitBody.ScanAccepts | cat-file.go:93-115 | With no rejected metadata line the scan yields the reference record: last tree, author and committer, all parents in order, the message after the separator |
| CommitBody.ScanRejects | cat-file.go:110-112 | The first rejected metadata line ends the scan with its error, whatever comes after it |
| CommitBody.ScanFailsIff | cat-file.go:93-115 | The scan fails exactly when some line before the separator is rejected |
| CommitBody.ParseCommitFailsIff | cat-file.go:91-115 | A body fails to decode exactly when one of its metadata lines is rejected |
| CommitBody.ParseCommitSpec | cat-file.go:91-115 | A decoded body holds the header's type and size, the last tree, author and committer (empty if absent), every parent in order, and the lines after the first blank line as the message (empty if none) |
| CommitBody.UnknownKeyAborts | cat-file.go:110-112 | After any run of valid lines, a line with an unknown key aborts with UnknownField naming that key, whatever follows it |
| CommitBody.MessageNotInterpreted | cat-file.go:95-98 | Lines after the separator are never read as metadata: adding any lines there cannot cause an error and changes only the message |
| CommitBody.MissingSeparator | cat-file.go:93-115 | A body of valid metadata lines with no blank line decodes with an empty message |
| CommitBody.MessageIsBodySuffix | cat-file.go:90-97 | When lines follow the separator, the body is the metadata lines, the separator, a line feed and then exactly the decoded message |
| CommitBody.LastValueAbsent | cat-file.go:102-109 | A key has no value exactly when no metadata line carries it |
| CommitBody.LastValueIsLast | cat-file.go:102-109 | A key's value comes from a line carrying that key with no later line carrying it (last wins) |
| CommitBody.ParentCount | cat-file.go:104-105 | There are as many parents as parent lines |
| CommitBody.ParentValuesAppend | cat-file.go:104-105 | Parents keep line order: the parents of two runs of lines are those of the first run followed by those of the second |
| Encoding.BodyRoundTrip | cat-file.go:91-115 | Writing a well-formed record as tree, parent, author and committer lines, a blank line and the message, then decoding it, gives back the record |
| Encoding.ObjectRoundTrip | cat-file.go:82-115 | The same holds for a whole object: header, NUL and canonical body decode to the original record |
| Locator.ObjectPath | cat-file.go:61 | The path is `.git/objects/`, then the first two characters of the name, then (for longer names) a slash and the rest; the name is recoverable from the path |
| Locator.CatFile | cat-file.go:59-80 | NotFound exactly when no file is at the object's path; success exactly when the file there inflates, with its text as the result |
| Locator.NewObject | cat-file.go:51-57 | A read failure is returned unchanged; otherwise the result is that of parsing the file's text |

## Left out

- File system and zlib: `os.Open`, `zlib.NewReader` and `ioutil.ReadAll` are replaced by a `store` map from path to what reading that file yields. `defer f.Close()` has no counterpart.
- Sha.NewSha: requires valid hex of even length and at most 40 digits. For other input the source calls its own behaviour undefined (a partial prefix decode, or an index panic beyond 20 bytes).
- Locator.ObjectPath: requires a name of at least two characters, with no `/` and with no `.` or `..` part. A shorter name makes `inputSha[:2]` panic. The others are rewritten by `path.Join`'s cleaning, which is not modelled.
- CommitBody.Scan: on an unknown key Go returns the partly filled record together with the error. The model returns only the error.
- Panics become errors: a header with fewer than two fields (`parts[1]`) becomes `MalformedHeader`, and a one-field `tree` or `parent` line becomes `MissingValue`. In both cases Go panics instead.
- Strings are sequences of decoded code points. Invalid UTF-8 and byte-level offsets are not modelled. Only `unicode.IsSpace`'s white-space set is reproduced.
- The size field is kept as text. It is never compared with the body length, and neither the source nor the model does so.
- SHA-1 hashing and the `SHA` type's use elsewhere in the repository are not part of this model.
