/**
 * `parseObj`: split a decompressed object into its header and body, take
 * the type and size from the header, and decode the body as a commit.
 * The body of every object is decoded this way, whatever its type.
 */
module ObjectParser {

  import opened Wrappers
  import opened GoStrings
  import opened Objects
  import opened Header
  import opened CommitBody

  function ParseObj(obj: string): (r: Result<GitObject, Error>)
    ensures r == Err(MalformedHeader) <==> |HeaderFields(obj)| < 2
    ensures r.Ok? ==>
      && r.value.objectType == HeaderFields(obj)[0]
      && r.value.size == HeaderFields(obj)[1]
  {
    var parts := HeaderFields(obj);
    if |parts| < 2 then Err(MalformedHeader)
    else ParseCommit(Body(obj), parts[0], parts[1])
  }

  /** An object decodes exactly when its header has a type and a size and
      no metadata line of its body is rejected; the record then holds the
      last tree, author and committer, every parent in order, and the
      message after the first blank line. */
  lemma ParseObjOutcome(obj: string)
    ensures ParseObj(obj).Ok? <==>
      |HeaderFields(obj)| >= 2 && NoRejection(Metadata(Split(Body(obj), '\n')))
    ensures ParseObj(obj).Ok? ==>
      var lines := Split(Body(obj), '\n');
      var meta := Metadata(lines);
      ParseObj(obj).value == GitObject(
        HeaderFields(obj)[0], HeaderFields(obj)[1],
        Override("", LastValue(meta, TreeKey)),
        ParentValues(meta),
        Override("", LastValue(meta, AuthorKey)),
        Override("", LastValue(meta, CommitterKey)),
        MessageOf(lines, ""))
  {
    var parts := HeaderFields(obj);
    if |parts| >= 2 {
      ParseCommitFailsIff(Body(obj), parts[0], parts[1]);
      if ParseObj(obj).Ok? {
        ParseCommitSpec(Body(obj), parts[0], parts[1]);
      }
    }
  }

  /** Without a NUL the whole object is also the body, so the header line
      is scanned as the first metadata line: a one-line object whose type
      word is not a commit key is rejected with that word. */
  lemma WithoutNulUnknownType(obj: string)
    requires NUL !in obj && '\n' !in obj
    requires |HeaderFields(obj)| >= 2 && ParseKey(HeaderFields(obj)[0]).None?
    ensures ParseObj(obj) == Err(UnknownField(HeaderFields(obj)[0]))
  {
    var lines := Split(obj, '\n');
    assert IndexOf(obj, '\n') == -1;
    assert lines == [obj];
    ReadLineSpec(obj);
    assert [] + [obj] + [] == lines;
    UnknownKeyAborts([], obj, [], Fresh(HeaderFields(obj)[0], HeaderFields(obj)[1]));
  }
}
