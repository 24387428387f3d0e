/**
 * The commit-body grammar of `parseObj`: the body is split into lines and
 * scanned from the top. A line with no fields ends the metadata and the
 * remaining lines are the message; `tree`, `parent`, `author` and
 * `committer` lines fill the record; any other key aborts the scan.
 */
module CommitBody {

  import opened Wrappers
  import opened GoStrings
  import opened Objects

  /** How the scan reads one line. */
  datatype Line = Separator | Entry(key: Key, value: string) | Rejected(error: Error)

  /** A `tree`/`parent` value is the line's second field (later fields are
      ignored); an `author`/`committer` value is every field after the key,
      rejoined with single spaces. A `tree` or `parent` line with no second
      field has no value to take. */
  function ReadLine(line: string): (r: Line)
    ensures r.Separator? <==> AllSpace(line)
  {
    var parts := Fields(line);
    if |parts| == 0 then Separator
    else
      match ParseKey(parts[0])
      case None => Rejected(UnknownField(parts[0]))
      case Some(k) =>
        if k == TreeKey || k == ParentKey then
          if |parts| < 2 then Rejected(MissingValue(k)) else Entry(k, parts[1])
        else
          Entry(k, Join(parts[1..], " "))
  }

  /** What a line means: which key it starts with, its value, and when it
      is rejected. A `tree`/`parent` value is a single field; an
      `author`/`committer` value has exactly the fields that follow the key
      and is already normalised, so it is those fields joined by single
      spaces. A `tree`/`parent` line with no value names its key. */
  lemma ReadLineSpec(line: string)
    ensures var r := ReadLine(line);
      && (r.Entry? ==> |Fields(line)| > 0 && Fields(line)[0] == KeyName(r.key))
      && (r.Entry? && (r.key == TreeKey || r.key == ParentKey) ==>
            |Fields(line)| >= 2 && r.value == Fields(line)[1] && IsField(r.value))
      && (r.Entry? && (r.key == AuthorKey || r.key == CommitterKey) ==>
            Fields(r.value) == Fields(line)[1..] && Join(Fields(r.value), " ") == r.value)
      && (|Fields(line)| == 1 && ParseKey(Fields(line)[0]) in {Some(TreeKey), Some(ParentKey)} ==>
            r == Rejected(MissingValue(ParseKey(Fields(line)[0]).value)))
      && (r.Rejected? <==>
            && |Fields(line)| > 0
            && (|| ParseKey(Fields(line)[0]).None?
                || (ParseKey(Fields(line)[0]) in {Some(TreeKey), Some(ParentKey)} && |Fields(line)| == 1)))
      && (|Fields(line)| > 0 && ParseKey(Fields(line)[0]).None? ==>
            r == Rejected(UnknownField(Fields(line)[0])))
  {
    var parts := Fields(line);
    if |parts| > 0 {
      FieldsOfJoin(parts[1..]);
    }
  }

  /** Record one metadata entry: parents accumulate, the other keys overwrite. */
  function Apply(acc: GitObject, key: Key, value: string): GitObject {
    match key
    case TreeKey => acc.(tree := value)
    case ParentKey => acc.(parents := acc.parents + [value])
    case AuthorKey => acc.(author := value)
    case CommitterKey => acc.(committer := value)
  }

  /** The loop of `parseObj` over the remaining lines. */
  function Scan(lines: seq<string>, acc: GitObject): (r: Result<GitObject, Error>)
    ensures r.Ok? ==> r.value.objectType == acc.objectType && r.value.size == acc.size
    ensures r.Ok? ==> acc.parents <= r.value.parents
    ensures r.Err? ==> r.error.UnknownField? || r.error.MissingValue?
  {
    if |lines| == 0 then Ok(acc)
    else
      match ReadLine(lines[0])
      case Separator => Ok(acc.(message := Join(lines[1..], "\n")))
      case Rejected(e) => Err(e)
      case Entry(k, v) => Scan(lines[1..], Apply(acc, k, v))
  }

  /** One entry line consumed. */
  lemma ScanEntry(lines: seq<string>, acc: GitObject, k: Key, v: string)
    requires |lines| > 0 && ReadLine(lines[0]) == Entry(k, v)
    ensures Scan(lines, acc) == Scan(lines[1..], Apply(acc, k, v))
  {
  }

  /** The separator consumed: the rest is the message. */
  lemma ScanSeparator(lines: seq<string>, acc: GitObject)
    requires |lines| > 0 && AllSpace(lines[0])
    ensures Scan(lines, acc) == Ok(acc.(message := Join(lines[1..], "\n")))
  {
  }

  /** Decode a body for an object whose header gave `objectType` and `size`. */
  function ParseCommit(body: string, objectType: string, size: string): (r: Result<GitObject, Error>)
    ensures r.Ok? ==> r.value.objectType == objectType && r.value.size == size
    ensures r.Err? ==> r.error.UnknownField? || r.error.MissingValue?
  {
    Scan(Split(body, '\n'), Fresh(objectType, size))
  }

  // ---------------------------------------------------------------------------
  // What the scan computes, defined without the scan
  // ---------------------------------------------------------------------------

  /** Position of the first line with no fields, or the number of lines. */
  function SeparatorIndex(lines: seq<string>): (k: nat)
    ensures k <= |lines|
    ensures forall j :: 0 <= j < k ==> !AllSpace(lines[j])
    ensures k < |lines| ==> AllSpace(lines[k])
  {
    if |lines| == 0 || AllSpace(lines[0]) then 0
    else 1 + SeparatorIndex(lines[1..])
  }

  /** The metadata lines: everything before the separator. */
  function Metadata(lines: seq<string>): seq<string> {
    lines[..SeparatorIndex(lines)]
  }

  /** The message: the lines after the separator joined back with line
      feeds, or `default` when no separator line exists. */
  function MessageOf(lines: seq<string>, default: string): string {
    var k := SeparatorIndex(lines);
    if k < |lines| then Join(lines[k + 1..], "\n") else default
  }

  /** The value of the LAST metadata line with key `key`, searched from the end. */
  function LastValue(meta: seq<string>, key: Key): Option<string> {
    if |meta| == 0 then None
    else
      var l := ReadLine(meta[|meta| - 1]);
      if l.Entry? && l.key == key then Some(l.value)
      else LastValue(meta[..|meta| - 1], key)
  }

  /** The values of the `parent` lines, in the order the lines appear. */
  function ParentValues(meta: seq<string>): seq<string> {
    if |meta| == 0 then []
    else
      var l := ReadLine(meta[0]);
      (if l.Entry? && l.key == ParentKey then [l.value] else []) + ParentValues(meta[1..])
  }

  function Override(current: string, found: Option<string>): string {
    if found.Some? then found.value else current
  }

  /** The record a successful scan from `acc` must produce. */
  function Expected(lines: seq<string>, acc: GitObject): GitObject {
    var meta := Metadata(lines);
    acc.(tree := Override(acc.tree, LastValue(meta, TreeKey)),
         parents := acc.parents + ParentValues(meta),
         author := Override(acc.author, LastValue(meta, AuthorKey)),
         committer := Override(acc.committer, LastValue(meta, CommitterKey)),
         message := MessageOf(lines, acc.message))
  }

  predicate NoRejection(meta: seq<string>) {
    forall j :: 0 <= j < |meta| ==> !ReadLine(meta[j]).Rejected?
  }

  // ---------------------------------------------------------------------------
  // The scan agrees with the reference
  // ---------------------------------------------------------------------------

  /** The last occurrence in `[l] + m` is the last one in `m` if there is one. */
  lemma {:induction false} LastValuePrepend(l: string, m: seq<string>, key: Key)
    ensures LastValue([l] + m, key) ==
      if LastValue(m, key).Some? then LastValue(m, key)
      else if ReadLine(l).Entry? && ReadLine(l).key == key then Some(ReadLine(l).value)
      else None
    decreases |m|
  {
    var s := [l] + m;
    if |m| > 0 {
      assert s[|s| - 1] == m[|m| - 1];
      assert s[..|s| - 1] == [l] + m[..|m| - 1];
      LastValuePrepend(l, m[..|m| - 1], key);
    } else {
      assert s[..0] == [];
    }
  }

  /** Whether a line is an entry for `key`. */
  predicate HasKey(line: string, key: Key) {
    ReadLine(line).Entry? && ReadLine(line).key == key
  }

  /** A key has no last value exactly when no line has it. */
  lemma {:induction false} LastValueAbsent(meta: seq<string>, key: Key)
    ensures LastValue(meta, key).None? <==> forall j :: 0 <= j < |meta| ==> !HasKey(meta[j], key)
  {
    if |meta| > 0 {
      var n := |meta| - 1;
      var init := meta[..n];
      if HasKey(meta[n], key) {
        assert LastValue(meta, key).Some?;
      } else {
        assert LastValue(meta, key) == LastValue(init, key);
        LastValueAbsent(init, key);
        assert forall j :: 0 <= j < n ==> init[j] == meta[j];
      }
    }
  }

  /** Line `j` sets `key` to `v` and no later line sets `key` again. */
  predicate LastAt(meta: seq<string>, key: Key, j: int, v: string) {
    && 0 <= j < |meta|
    && ReadLine(meta[j]) == Entry(key, v)
    && forall i :: j < i < |meta| ==> !HasKey(meta[i], key)
  }

  /** A line without the key appended keeps the last occurrence where it was. */
  lemma LastAtExtend(meta: seq<string>, key: Key, j: int, v: string)
    requires |meta| > 0 && !HasKey(meta[|meta| - 1], key)
    requires LastAt(meta[..|meta| - 1], key, j, v)
    ensures LastAt(meta, key, j, v)
  {
    var n := |meta| - 1;
    assert forall i :: 0 <= i < n ==> meta[..n][i] == meta[i];
  }

  /** `LastValue` is the last occurrence: the value of a line with the key
      that no later line overrides. */
  lemma {:induction false} LastValueIsLast(meta: seq<string>, key: Key)
    requires LastValue(meta, key).Some?
    ensures exists j :: LastAt(meta, key, j, LastValue(meta, key).value)
  {
    var n := |meta| - 1;
    var v := LastValue(meta, key).value;
    if HasKey(meta[n], key) {
      assert LastAt(meta, key, n, v);
    } else {
      var init := meta[..n];
      assert LastValue(init, key) == Some(v);
      LastValueIsLast(init, key);
      var j :| LastAt(init, key, j, v);
      LastAtExtend(meta, key, j, v);
    }
  }

  /** How many lines are entries for `key`, counted from the end. */
  function CountKey(meta: seq<string>, key: Key): nat {
    if |meta| == 0 then 0
    else CountKey(meta[..|meta| - 1], key) + (if HasKey(meta[|meta| - 1], key) then 1 else 0)
  }

  /** There is one parent value per `parent` line. */
  lemma {:induction false} ParentCount(meta: seq<string>)
    ensures |ParentValues(meta)| == CountKey(meta, ParentKey)
  {
    if |meta| > 0 {
      var n := |meta| - 1;
      ParentCount(meta[..n]);
      ParentValuesAppend(meta[..n], [meta[n]]);
      assert meta[..n] + [meta[n]] == meta;
      Cons(meta[n], []);
    }
  }

  /** Parent values of concatenated line lists concatenate, so a parent line
      that comes earlier contributes an earlier value. */
  lemma {:induction false} ParentValuesAppend(a: seq<string>, b: seq<string>)
    ensures ParentValues(a + b) == ParentValues(a) + ParentValues(b)
  {
    if |a| > 0 {
      var x, more := a[0], a[1..];
      assert a == [x] + more;
      Assoc([x], more, b);
      Cons(x, more + b);
      ParentValuesAppend(more, b);
    } else {
      assert a + b == b;
    }
  }

  /** A metadata line in front moves the separator by one and leaves the message alone. */
  lemma MetadataStep(lines: seq<string>, default: string)
    requires |lines| > 0 && !AllSpace(lines[0])
    ensures Metadata(lines) == [lines[0]] + Metadata(lines[1..])
    ensures MessageOf(lines, default) == MessageOf(lines[1..], default)
  {
    var rest := lines[1..];
    var k := SeparatorIndex(rest);
    assert SeparatorIndex(lines) == k + 1;
    if k < |rest| {
      assert lines[k + 2..] == rest[k + 1..];
    }
  }

  /** Last-wins seen from the front: a value set by the first line survives
      unless a later line sets the key again. */
  lemma LastValueStep(l: string, m: seq<string>, key: Key, current: string)
    ensures var e := ReadLine(l);
      Override(current, LastValue([l] + m, key)) ==
      Override(if e.Entry? && e.key == key then e.value else current, LastValue(m, key))
  {
    LastValuePrepend(l, m, key);
  }

  /** Reading one entry line and then the rest gives the record the
      reference assigns to all the lines. */
  lemma ExpectedStep(lines: seq<string>, acc: GitObject)
    requires |lines| > 0 && ReadLine(lines[0]).Entry?
    ensures var e := ReadLine(lines[0]);
      Expected(lines, acc) == Expected(lines[1..], Apply(acc, e.key, e.value))
  {
    var l, rest := lines[0], lines[1..];
    var e := ReadLine(l);
    var acc' := Apply(acc, e.key, e.value);
    MetadataStep(lines, acc.message);
    var m, m' := Metadata(lines), Metadata(rest);
    LastValueStep(l, m', TreeKey, acc.tree);
    LastValueStep(l, m', AuthorKey, acc.author);
    LastValueStep(l, m', CommitterKey, acc.committer);
    ParentValuesStep(l, m', acc.parents);
  }

  /** The parents of a line list, seen from the front. */
  lemma ParentValuesStep(l: string, m: seq<string>, ps: seq<string>)
    ensures var e := ReadLine(l);
      ps + ParentValues([l] + m) ==
      (if e.Entry? && e.key == ParentKey then ps + [e.value] else ps) + ParentValues(m)
  {
    assert ([l] + m)[1..] == m;
  }

  /** With no metadata line before it, the separator hands the rest to the message. */
  lemma ExpectedAtSeparator(lines: seq<string>, acc: GitObject)
    requires |lines| == 0 || AllSpace(lines[0])
    ensures Scan(lines, acc) == Ok(Expected(lines, acc))
  {
    assert Metadata(lines) == [];
    assert acc.parents + [] == acc.parents;
    if |lines| > 0 {
      assert ReadLine(lines[0]).Separator?;
    }
  }

  /** When no metadata line is rejected the scan succeeds with the reference
      record: last-wins tree, author and committer, all parents in order,
      and the message after the separator. */
  lemma {:induction false} ScanAccepts(lines: seq<string>, acc: GitObject)
    requires NoRejection(Metadata(lines))
    ensures Scan(lines, acc) == Ok(Expected(lines, acc))
  {
    if |lines| == 0 || AllSpace(lines[0]) {
      ExpectedAtSeparator(lines, acc);
    } else {
      var rest := lines[1..];
      assert SeparatorIndex(lines) == SeparatorIndex(rest) + 1;
      assert Metadata(lines)[0] == lines[0];
      var e := ReadLine(lines[0]);
      assert NoRejection(Metadata(rest)) by {
        forall j | 0 <= j < |Metadata(rest)|
          ensures !ReadLine(Metadata(rest)[j]).Rejected?
        {
          assert Metadata(rest)[j] == Metadata(lines)[j + 1];
        }
      }
      ScanAccepts(rest, Apply(acc, e.key, e.value));
      ExpectedStep(lines, acc);
    }
  }

  /** The first rejected metadata line ends the scan with its error, whatever
      valid lines came before it; later lines are never read. */
  lemma {:induction false} ScanRejects(lines: seq<string>, acc: GitObject, j: nat)
    requires j < SeparatorIndex(lines)
    requires ReadLine(lines[j]).Rejected?
    requires NoRejection(lines[..j])
    ensures Scan(lines, acc) == Err(ReadLine(lines[j]).error)
    decreases j
  {
    if j > 0 {
      var e := ReadLine(lines[0]);
      assert lines[..j][0] == lines[0];
      assert lines[1..][..j - 1] == lines[..j][1..];
      ScanRejects(lines[1..], Apply(acc, e.key, e.value), j - 1);
    }
  }

  /** The scan fails exactly when some metadata line is rejected. */
  lemma ScanFailsIff(lines: seq<string>, acc: GitObject)
    ensures Scan(lines, acc).Err? <==>
      exists j :: 0 <= j < SeparatorIndex(lines) && ReadLine(lines[j]).Rejected?
  {
    var k := SeparatorIndex(lines);
    if exists j :: 0 <= j < k && ReadLine(lines[j]).Rejected? {
      var j := FirstRejected(lines, k);
      ScanRejects(lines, acc, j);
    } else {
      ScanAccepts(lines, acc);
    }
  }

  /** The first rejected line among the first `k`, given that one exists. */
  function FirstRejected(lines: seq<string>, k: nat): (j: nat)
    requires k <= |lines|
    requires exists j :: 0 <= j < k && ReadLine(lines[j]).Rejected?
    ensures j < k && ReadLine(lines[j]).Rejected?
    ensures NoRejection(lines[..j])
  {
    if ReadLine(lines[0]).Rejected? then 0
    else
      RejectedInTail(lines, k);
      var j := 1 + FirstRejected(lines[1..], k - 1);
      NoRejectionCons(lines, j);
      j
  }

  /** A prefix with an accepted first line and no rejected line after it. */
  lemma NoRejectionCons(lines: seq<string>, j: nat)
    requires 0 < j <= |lines|
    requires !ReadLine(lines[0]).Rejected?
    requires NoRejection(lines[1..][..j - 1])
    ensures NoRejection(lines[..j])
  {
    forall i | 0 < i < j ensures !ReadLine(lines[..j][i]).Rejected? {
      assert lines[..j][i] == lines[1..][..j - 1][i - 1];
    }
  }

  /** A rejected line that is not the first lies in the tail. */
  lemma RejectedInTail(lines: seq<string>, k: nat)
    requires k <= |lines|
    requires exists j :: 0 <= j < k && ReadLine(lines[j]).Rejected?
    requires !ReadLine(lines[0]).Rejected?
    ensures exists j :: 0 <= j < k - 1 && ReadLine(lines[1..][j]).Rejected?
  {
    var w :| 0 <= w < k && ReadLine(lines[w]).Rejected?;
    assert lines[1..][w - 1] == lines[w];
  }

  // ---------------------------------------------------------------------------
  // Consequences for a whole body
  // ---------------------------------------------------------------------------

  /** A body fails to decode exactly when one of its metadata lines is rejected. */
  lemma ParseCommitFailsIff(body: string, objectType: string, size: string)
    ensures ParseCommit(body, objectType, size).Err? <==> !NoRejection(Metadata(Split(body, '\n')))
  {
    var lines := Split(body, '\n');
    var meta := Metadata(lines);
    ScanFailsIff(lines, Fresh(objectType, size));
    assert forall j :: 0 <= j < |meta| ==> meta[j] == lines[j];
  }

  /** A decoded body: the type and size from the header, the last `tree`,
      `author` and `committer` values (empty when the key never occurs),
      every `parent` value in order, and the lines after the first blank
      line as the message (empty when there is no blank line). */
  lemma ParseCommitSpec(body: string, objectType: string, size: string)
    requires ParseCommit(body, objectType, size).Ok?
    ensures var lines := Split(body, '\n');
      var meta := Metadata(lines);
      ParseCommit(body, objectType, size).value == GitObject(
        objectType, size,
        Override("", LastValue(meta, TreeKey)),
        ParentValues(meta),
        Override("", LastValue(meta, AuthorKey)),
        Override("", LastValue(meta, CommitterKey)),
        MessageOf(lines, ""))
  {
    var lines := Split(body, '\n');
    var meta := Metadata(lines);
    var acc := Fresh(objectType, size);
    ParseCommitFailsIff(body, objectType, size);
    ScanAccepts(lines, acc);
    assert [] + ParentValues(meta) == ParentValues(meta);
  }

  /** An unknown key before the separator aborts the scan with that key,
      whatever valid lines precede it and whatever follows. */
  lemma UnknownKeyAborts(valid: seq<string>, line: string, rest: seq<string>, acc: GitObject)
    requires AllEntries(valid)
    requires |Fields(line)| > 0 && ParseKey(Fields(line)[0]).None?
    ensures Scan(valid + [line] + rest, acc) == Err(UnknownField(Fields(line)[0]))
  {
    var lines := valid + [line] + rest;
    ReadLineSpec(line);
    SeparatorAfterEntries(valid, [line] + rest);
    Assoc(valid, [line], rest);
    assert lines[|valid|] == line;
    assert lines[..|valid|] == valid;
    ScanRejects(lines, acc, |valid|);
  }

  predicate AllEntries(lines: seq<string>) {
    forall j :: 0 <= j < |lines| ==> ReadLine(lines[j]).Entry?
  }

  /** Entry lines never end the metadata: the separator of `entries + rest`
      lies in `rest`. */
  lemma {:induction false} SeparatorAfterEntries(entries: seq<string>, rest: seq<string>)
    requires AllEntries(entries)
    ensures SeparatorIndex(entries + rest) == |entries| + SeparatorIndex(rest)
    ensures (entries + rest)[..|entries|] == entries
  {
    if |entries| > 0 {
      assert !AllSpace(entries[0]);
      assert (entries + rest)[1..] == entries[1..] + rest;
      SeparatorAfterEntries(entries[1..], rest);
    } else {
      assert entries + rest == rest;
    }
  }

  /** Lines after the separator are never read as metadata: they cannot
      cause an error and only make up the message. */
  lemma MessageNotInterpreted(entries: seq<string>, sep: string, rest: seq<string>, acc: GitObject)
    requires AllEntries(entries)
    requires AllSpace(sep)
    ensures var r := Scan(entries + [sep], acc);
      && r.Ok?
      && Scan(entries + [sep] + rest, acc) == Ok(r.value.(message := Join(rest, "\n")))
  {
    EntriesThenSeparator(entries, sep, rest);
    EntriesThenSeparator(entries, sep, []);
    assert entries + [sep] + [] == entries + [sep];
    ScanAccepts(entries + [sep] + rest, acc);
    ScanAccepts(entries + [sep], acc);
  }

  /** The shape of entry lines, one blank line and further lines. */
  lemma EntriesThenSeparator(entries: seq<string>, sep: string, rest: seq<string>)
    requires AllEntries(entries)
    requires AllSpace(sep)
    ensures var lines := entries + [sep] + rest;
      && SeparatorIndex(lines) == |entries|
      && Metadata(lines) == entries
      && lines[|entries| + 1..] == rest
  {
    var lines := entries + [sep] + rest;
    SeparatorAfterEntries(entries, [sep] + rest);
    Assoc(entries, [sep], rest);
    Cons(sep, rest);
    assert lines[|entries|..] == [sep] + rest;
  }

  /** With no blank line the whole body is metadata and the message stays empty. */
  lemma MissingSeparator(body: string, objectType: string, size: string)
    requires AllEntries(Split(body, '\n'))
    ensures ParseCommit(body, objectType, size).Ok?
    ensures ParseCommit(body, objectType, size).value.message == ""
  {
    var lines := Split(body, '\n');
    SeparatorAfterEntries(lines, []);
    assert lines + [] == lines;
    assert Metadata(lines) == lines;
    ScanAccepts(lines, Fresh(objectType, size));
  }

  /** The message is the tail of the body after the separator line's line
      feed: its own line feeds are kept exactly. */
  lemma MessageIsBodySuffix(body: string, objectType: string, size: string)
    requires ParseCommit(body, objectType, size).Ok?
    requires SeparatorIndex(Split(body, '\n')) + 1 < |Split(body, '\n')|
    ensures var lines := Split(body, '\n');
      var msg := ParseCommit(body, objectType, size).value.message;
      body == Join(lines[..SeparatorIndex(lines) + 1], "\n") + "\n" + msg
  {
    var lines := Split(body, '\n');
    var k := SeparatorIndex(lines);
    ParseCommitSpec(body, objectType, size);
    JoinSplit(body, '\n');
    JoinAppend(lines[..k + 1], lines[k + 1..], "\n");
    assert lines == lines[..k + 1] + lines[k + 1..];
  }
}
