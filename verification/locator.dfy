/**
 * `CatFile` and `NewObject`: an object name becomes a path under
 * `.git/objects`, the file there is read and inflated, and the text is
 * decoded. The object store is a parameter: a map from path to what
 * reading that file yields.
 */
module Locator {

  import opened Wrappers
  import opened Objects
  import opened ObjectParser

  /** The directory `path.Join(".git", "objects")` names. */
  const ObjectsDir: string := ".git/objects"

  /** Names whose path `path.Join` does not rewrite: at least two
      characters (shorter names make the slice expression panic), no `/`,
      and neither the directory nor the file part is `.` or `..`. */
  predicate PlainName(id: string) {
    && |id| >= 2
    && '/' !in id
    && id[..2] != ".."
    && id[2..] != "."
    && id[2..] != ".."
  }

  /** Recover an object name from a path under the objects directory. */
  function NameOfPath(p: string): Option<string> {
    var n := |ObjectsDir| + 1;
    if |p| < n || p[..n] != ObjectsDir + "/" then None
    else
      var rest := p[n..];
      if |rest| == 2 then Some(rest)
      else if |rest| > 3 && rest[2] == '/' then Some(rest[..2] + rest[3..])
      else None
  }

  /** `path.Join(".git", "objects", id[:2], id[2:])`: the first two
      characters name the directory, the rest the file. An empty rest is
      dropped by `path.Join`. */
  function ObjectPath(id: string): (p: string)
    requires PlainName(id)
    ensures |p| == |ObjectsDir| + 1 + |id| + (if |id| > 2 then 1 else 0)
    ensures p[..|ObjectsDir| + 1] == ObjectsDir + "/"
    ensures p[|ObjectsDir| + 1..|ObjectsDir| + 3] == id[..2]
    ensures NameOfPath(p) == Some(id)
  {
    var n := |ObjectsDir| + 1;
    var rest := if |id| == 2 then id else id[..2] + "/" + id[2..];
    var p := ObjectsDir + "/" + rest;
    assert p[..n] == ObjectsDir + "/";
    assert p[n..] == rest;
    assert rest[..2] == id[..2];
    assert p[n..n + 2] == rest[..2];
    assert |id| > 2 ==>
      rest[2] == '/' && rest[..2] == id[..2] && rest[3..] == id[2..] && id[..2] + id[2..] == id;
    p
  }

  /** Different names are stored in different files. */
  lemma ObjectPathInjective(a: string, b: string)
    requires PlainName(a) && PlainName(b)
    requires ObjectPath(a) == ObjectPath(b)
    ensures a == b
  {
  }

  /** What reading the file at a path yields: the inflated text, a stream
      `zlib` rejects, or a failure to open or read the file. */
  datatype StoredFile = Inflates(text: string) | NotZlib | Unreadable

  /** `CatFile`: the decompressed text of the object, or why it cannot be
      read. A missing file is `NotFound`, never another error. */
  function CatFile(id: string, store: map<string, StoredFile>): (r: Result<string, Error>)
    requires PlainName(id)
    ensures r.Err? && r.error.NotFound? <==> ObjectPath(id) !in store
    ensures r.Ok? <==> ObjectPath(id) in store && store[ObjectPath(id)].Inflates?
    ensures r.Ok? ==> r.value == store[ObjectPath(id)].text
  {
    var path := ObjectPath(id);
    if path !in store then Err(NotFound(path))
    else
      match store[path]
      case Inflates(text) => Ok(text)
      case NotZlib => Err(CorruptObject(path))
      case Unreadable => Err(IOError(path))
  }

  /** `NewObject`: a failed read is returned unchanged; otherwise the text
      is decoded. */
  function NewObject(id: string, store: map<string, StoredFile>): (r: Result<GitObject, Error>)
    requires PlainName(id)
    ensures ObjectPath(id) !in store ==> r == Err(NotFound(ObjectPath(id)))
    ensures CatFile(id, store).Err? ==> r == Err(CatFile(id, store).error)
    ensures ObjectPath(id) in store && store[ObjectPath(id)].Inflates? ==>
      r == ParseObj(store[ObjectPath(id)].text)
  {
    match CatFile(id, store)
    case Err(e) => Err(e)
    case Ok(text) => ParseObj(text)
  }
}
