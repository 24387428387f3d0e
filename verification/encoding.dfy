/**
 * The loose-object text a commit record is written as, used as the
 * partner of the decoder: decoding the canonical text of a well-formed
 * record gives the record back.
 */
module Encoding {

  import opened Wrappers
  import opened GoStrings
  import opened Objects
  import opened Header
  import opened CommitBody
  import opened ObjectParser

  /** A value already in the form the decoder produces: joining the fields
      of an `author`/`committer` line normalises its white space. */
  predicate Normalised(s: string) {
    Join(Fields(s), " ") == s
  }

  /** A record some commit text decodes to: single-field tree and parents,
      normalised author and committer. */
  predicate WellFormed(o: GitObject) {
    && IsField(o.tree)
    && (forall i :: 0 <= i < |o.parents| ==> IsField(o.parents[i]))
    && Normalised(o.author)
    && Normalised(o.committer)
  }

  /** A value is storable under key `k` without being changed by decoding. */
  predicate ValueFor(k: Key, v: string) {
    if k == TreeKey || k == ParentKey then IsField(v) else Normalised(v)
  }

  function KeyLine(k: Key, v: string): string {
    KeyName(k) + " " + v
  }

  function ParentLines(ps: seq<string>): (r: seq<string>)
    ensures |r| == |ps|
    ensures forall i :: 0 <= i < |ps| ==> r[i] == KeyLine(ParentKey, ps[i])
  {
    if |ps| == 0 then []
    else
      var more := ParentLines(ps[1..]);
      var r := [KeyLine(ParentKey, ps[0])] + more;
      assert forall i :: 1 <= i < |ps| ==> r[i] == more[i - 1] && ps[1..][i - 1] == ps[i];
      r
  }

  /** The metadata lines of a record in the order Git writes them, then
      the blank separator line. */
  function HeadLines(o: GitObject): seq<string> {
    [KeyLine(TreeKey, o.tree)]
      + (ParentLines(o.parents)
      + ([KeyLine(AuthorKey, o.author)]
      + ([KeyLine(CommitterKey, o.committer)]
      + [""])))
  }

  /** Metadata lines, a blank line, then the message. */
  function EncodeBody(o: GitObject): string {
    Join(HeadLines(o), "\n") + "\n" + o.message
  }

  /** `type size\0body`. */
  function EncodeObject(o: GitObject): string {
    o.objectType + " " + o.size + [NUL] + EncodeBody(o)
  }

  /** A key line reads back as the key and value it was written from. */
  lemma ReadKeyLine(k: Key, v: string)
    requires ValueFor(k, v)
    ensures ReadLine(KeyLine(k, v)) == Entry(k, v)
    ensures '\n' !in KeyLine(k, v)
  {
    var w := KeyName(k);
    assert IsField(w);
    FieldsOfKeyLine(w, v);
    ParseKeyName(k);
    var parts := Fields(KeyLine(k, v));
    assert parts == [w] + Fields(v);
    assert parts[1..] == Fields(v);
    if k == TreeKey || k == ParentKey {
      FieldsAfterField(v, "");
      assert v + "" == v;
      assert parts == [w, v];
      NoSpaceNoNewline(v);
    } else {
      NormalisedNoNewline(v);
    }
    NoSpaceNoNewline(w);
  }

  /** The first parent line split off the rest. */
  lemma ParentLinesStep(ps: seq<string>, rest: seq<string>)
    requires |ps| > 0
    ensures var lines := ParentLines(ps) + rest;
      && lines[0] == KeyLine(ParentKey, ps[0])
      && lines[1..] == ParentLines(ps[1..]) + rest
  {
    var lp, tail := KeyLine(ParentKey, ps[0]), ParentLines(ps[1..]);
    assert ParentLines(ps) == [lp] + tail;
    Assoc([lp], tail, rest);
    Cons(lp, tail + rest);
  }

  /** Parent lines append their values to the parents, in order. */
  lemma {:induction false} ScanParentLines(ps: seq<string>, rest: seq<string>, acc: GitObject)
    requires forall i :: 0 <= i < |ps| ==> IsField(ps[i])
    ensures Scan(ParentLines(ps) + rest, acc) == Scan(rest, acc.(parents := acc.parents + ps))
  {
    if |ps| == 0 {
      assert ParentLines(ps) + rest == rest;
      assert acc.parents + ps == acc.parents;
    } else {
      ParentLinesStep(ps, rest);
      AppendHead(acc.parents, ps);
      ReadKeyLine(ParentKey, ps[0]);
      ScanEntry(ParentLines(ps) + rest, acc, ParentKey, ps[0]);
      ScanParentLines(ps[1..], rest, acc.(parents := acc.parents + [ps[0]]));
    }
  }

  /** The body lines of the canonical text are the metadata lines, the
      blank separator and the message's own lines. */
  lemma EncodedLines(o: GitObject)
    requires WellFormed(o)
    ensures Split(EncodeBody(o), '\n') == HeadLines(o) + Split(o.message, '\n')
  {
    var m := HeadLines(o);
    forall i | 0 <= i < |m| ensures '\n' !in m[i] {
      if i == 0 {
        ReadKeyLine(TreeKey, o.tree);
      } else if i <= |o.parents| {
        ReadKeyLine(ParentKey, o.parents[i - 1]);
      } else if i == |o.parents| + 1 {
        ReadKeyLine(AuthorKey, o.author);
      } else if i == |o.parents| + 2 {
        ReadKeyLine(CommitterKey, o.committer);
      }
    }
    SplitJoinThen(m, o.message, '\n');
  }

  /** An author line, a committer line, a blank line, then the message lines. */
  lemma ScanClosingLines(la: string, lc: string, a: string, c: string, msgLines: seq<string>, acc: GitObject)
    requires ReadLine(la) == Entry(AuthorKey, a) && ReadLine(lc) == Entry(CommitterKey, c)
    ensures Scan([la] + ([lc] + ([""] + msgLines)), acc)
      == Ok(acc.(author := a, committer := c, message := Join(msgLines, "\n")))
  {
    var s2 := [""] + msgLines;
    var s1 := [lc] + s2;
    Cons(la, s1);
    ScanEntry([la] + s1, acc, AuthorKey, a);
    Cons(lc, s2);
    ScanEntry(s1, acc.(author := a), CommitterKey, c);
    Cons("", msgLines);
    ScanSeparator(s2, acc.(author := a, committer := c));
  }

  /** The scan over the canonical metadata lines, the blank line and any
      message lines rebuilds the record around those message lines. */
  lemma ScanCanonicalLines(o: GitObject, msgLines: seq<string>)
    requires WellFormed(o)
    ensures Scan(HeadLines(o) + msgLines, Fresh(o.objectType, o.size))
      == Ok(o.(message := Join(msgLines, "\n")))
  {
    var lt, la, lc := KeyLine(TreeKey, o.tree), KeyLine(AuthorKey, o.author), KeyLine(CommitterKey, o.committer);
    var pl := ParentLines(o.parents);
    var tail := [la] + ([lc] + ([""] + msgLines));
    var rest := pl + tail;
    Assoc([lc], [""], msgLines);
    Assoc([la], [lc] + [""], msgLines);
    Assoc(pl, [la] + ([lc] + [""]), msgLines);
    Assoc([lt], pl + ([la] + ([lc] + [""])), msgLines);
    var lines := HeadLines(o) + msgLines;
    assert lines == [lt] + rest;
    ReadKeyLine(TreeKey, o.tree);
    var acc0 := Fresh(o.objectType, o.size);
    var acc1 := acc0.(tree := o.tree);
    Cons(lt, rest);
    ScanEntry(lines, acc0, TreeKey, o.tree);
    ScanParentLines(o.parents, tail, acc1);
    var acc2 := acc1.(parents := [] + o.parents);
    ReadKeyLine(AuthorKey, o.author);
    ReadKeyLine(CommitterKey, o.committer);
    ScanClosingLines(la, lc, o.author, o.committer, msgLines, acc2);
    assert [] + o.parents == o.parents;
  }

  /** Decoding the canonical body of a well-formed record gives the record back. */
  lemma BodyRoundTrip(o: GitObject)
    requires WellFormed(o)
    ensures ParseCommit(EncodeBody(o), o.objectType, o.size) == Ok(o)
  {
    EncodedLines(o);
    var msgLines := Split(o.message, '\n');
    ScanCanonicalLines(o, msgLines);
    JoinSplit(o.message, '\n');
    assert o.(message := o.message) == o;
  }

  /** Decoding the canonical object text of a well-formed record, whose type
      and size are single fields without NUL, gives the record back. */
  lemma ObjectRoundTrip(o: GitObject)
    requires WellFormed(o)
    requires IsField(o.objectType) && IsField(o.size)
    requires NUL !in o.objectType && NUL !in o.size
    ensures ParseObj(EncodeObject(o)) == Ok(o)
  {
    FramingRoundTrip(o.objectType, o.size, EncodeBody(o));
    BodyRoundTrip(o);
  }
}
