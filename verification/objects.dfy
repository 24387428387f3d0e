/**
 * The data model of the decoder: the record a loose object decodes into,
 * the closed set of commit keys, and the ways decoding can fail.
 */
module Objects {

  import opened Wrappers

  /** The keys a commit's metadata lines may start with (`KeyType`). */
  datatype Key = TreeKey | ParentKey | AuthorKey | CommitterKey

  function KeyName(k: Key): string {
    match k
    case TreeKey => "tree"
    case ParentKey => "parent"
    case AuthorKey => "author"
    case CommitterKey => "committer"
  }

  /** Recognise a key word; every other word is an unknown field. */
  function ParseKey(word: string): (r: Option<Key>)
    ensures r.Some? ==> KeyName(r.value) == word
    ensures r.None? ==> forall k: Key :: KeyName(k) != word
  {
    if word == "tree" then Some(TreeKey)
    else if word == "parent" then Some(ParentKey)
    else if word == "author" then Some(AuthorKey)
    else if word == "committer" then Some(CommitterKey)
    else None
  }

  lemma ParseKeyName(k: Key)
    ensures ParseKey(KeyName(k)) == Some(k)
  {
  }

  /** Go's `GitObject`. Fields that never receive a value stay empty. */
  datatype GitObject = GitObject(
    objectType: string,
    size: string,
    tree: string,
    parents: seq<string>,
    author: string,
    committer: string,
    message: string)

  /** The record before any body line has been read. */
  function Fresh(objectType: string, size: string): GitObject {
    GitObject(objectType, size, "", [], "", "", "")
  }

  /** Why a lookup or a decode fails. */
  datatype Error =
    | NotFound(path: string)          // no file at the object's path
    | CorruptObject(path: string)     // the file is not a zlib stream
    | IOError(path: string)           // any other failure to read the file
    | MalformedHeader                 // fewer than two fields before the NUL
    | MissingValue(key: Key)          // a tree or parent line with no value
    | UnknownField(word: string)      // a metadata line with an unknown key

}
