/**
 * The parts of Go's `strings` package that the object decoder relies on:
 * `Fields`, `Split` (with a one-character separator), `Join` and `Index`
 * (for one character). Strings are sequences of decoded code points.
 */
module GoStrings {

  /** Go's `unicode.IsSpace`: the separators `strings.Fields` splits on.
      NUL is not one of them. */
  predicate IsSpace(c: char) {
    var n := c as int;
    || n == 0x20
    || 0x09 <= n <= 0x0D
    || n == 0x85
    || n == 0xA0
    || n == 0x1680
    || 0x2000 <= n <= 0x200A
    || n == 0x2028
    || n == 0x2029
    || n == 0x202F
    || n == 0x205F
    || n == 0x3000
  }

  predicate NoSpace(s: string) {
    forall i :: 0 <= i < |s| ==> !IsSpace(s[i])
  }

  predicate AllSpace(s: string) {
    forall i :: 0 <= i < |s| ==> IsSpace(s[i])
  }

  /** What `strings.Fields` can produce: a non-empty run of non-space characters. */
  predicate IsField(w: string) {
    |w| > 0 && NoSpace(w)
  }

  /** Length of the run of non-space characters that starts `s`. */
  function WordLength(s: string): (n: nat)
    ensures n <= |s|
    ensures NoSpace(s[..n])
    ensures n < |s| ==> IsSpace(s[n])
  {
    if |s| == 0 || IsSpace(s[0]) then 0
    else
      var m := WordLength(s[1..]);
      assert s[..1 + m] == [s[0]] + s[1..][..m];
      1 + m
  }

  /** Go's `strings.Fields`: the maximal runs of non-space characters, in order. */
  function Fields(s: string): (r: seq<string>)
    ensures forall i :: 0 <= i < |r| ==> IsField(r[i])
    ensures |r| == 0 <==> AllSpace(s)
    decreases |s|
  {
    if |s| == 0 then []
    else if IsSpace(s[0]) then
      var r := Fields(s[1..]);
      assert AllSpace(s) <==> AllSpace(s[1..]) by {
        if AllSpace(s[1..]) {
          forall i | 0 <= i < |s| ensures IsSpace(s[i]) {
            if i > 0 { assert s[i] == s[1..][i - 1]; }
          }
        }
      }
      r
    else
      var n := WordLength(s);
      [s[..n]] + Fields(s[n..])
  }

  /** Go's `strings.Join`: `sep` goes between consecutive parts, never
      before the first or after the last. */
  function Join(parts: seq<string>, sep: string): (r: string)
    ensures |parts| == 0 ==> r == ""
    ensures |parts| == 1 ==> r == parts[0]
  {
    if |parts| == 0 then ""
    else if |parts| == 1 then parts[0]
    else parts[0] + sep + Join(parts[1..], sep)
  }

  /** Go's `strings.Index` for a one-character needle: the first position of `c`, or -1. */
  function IndexOf(s: string, c: char): (i: int)
    ensures -1 <= i < |s|
    ensures i == -1 <==> c !in s
    ensures 0 <= i ==> s[i] == c && c !in s[..i]
  {
    if |s| == 0 then -1
    else if s[0] == c then 0
    else
      var j := IndexOf(s[1..], c);
      assert s == [s[0]] + s[1..];
      if j < 0 then -1
      else
        assert s[..j + 1] == [s[0]] + s[1..][..j];
        j + 1
  }

  /** Go's `strings.Split` with a one-character separator: the pieces between
      occurrences of `c`; there is always one more piece than separators. */
  function Split(s: string, c: char): (r: seq<string>)
    ensures |r| >= 1
    ensures |r| == 1 <==> c !in s
    decreases |s|
  {
    var i := IndexOf(s, c);
    if i < 0 then [s] else [s[..i]] + Split(s[i + 1..], c)
  }

  // ---------------------------------------------------------------------------
  // Fields
  // ---------------------------------------------------------------------------

  /** The run that starts `w + rest` is exactly `w` when `w` is a field and
      `rest` does not continue it. */
  lemma {:induction false} WordLengthOfField(w: string, rest: string)
    requires IsField(w)
    requires |rest| == 0 || IsSpace(rest[0])
    ensures WordLength(w + rest) == |w|
    decreases |w|
  {
    var s := w + rest;
    assert s[0] == w[0];
    if |w| > 1 {
      assert s[1..] == w[1..] + rest;
      WordLengthOfField(w[1..], rest);
    } else {
      assert s[1..] == rest;
    }
  }

  /** A field followed by a separator (or nothing) is the first field. */
  lemma FieldsAfterField(w: string, rest: string)
    requires IsField(w)
    requires |rest| == 0 || IsSpace(rest[0])
    ensures Fields(w + rest) == [w] + Fields(rest)
  {
    var s := w + rest;
    WordLengthOfField(w, rest);
    assert s[..|w|] == w;
    assert s[|w|..] == rest;
  }

  /** Leading white space contributes no field. */
  lemma {:induction false} FieldsAfterSpace(sp: string, s: string)
    requires AllSpace(sp)
    ensures Fields(sp + s) == Fields(s)
    decreases |sp|
  {
    if |sp| > 0 {
      assert (sp + s)[1..] == sp[1..] + s;
      FieldsAfterSpace(sp[1..], s);
    } else {
      assert sp + s == s;
    }
  }

  /** A field, one space, then anything: the field comes first. */
  lemma FieldsOfKeyLine(w: string, s: string)
    requires IsField(w)
    ensures Fields(w + " " + s) == [w] + Fields(s)
  {
    assert w + " " + s == w + (" " + s);
    FieldsAfterField(w, " " + s);
    FieldsAfterSpace(" ", s);
  }

  /** `Fields` undoes `Join` with a single space: joining fields and splitting
      them again gives the same fields back. */
  lemma {:induction false} FieldsOfJoin(words: seq<string>)
    requires forall i :: 0 <= i < |words| ==> IsField(words[i])
    ensures Fields(Join(words, " ")) == words
  {
    if |words| == 0 {
    } else if |words| == 1 {
      FieldsAfterField(words[0], "");
      assert words[0] + "" == words[0];
    } else {
      FieldsOfJoin(words[1..]);
      FieldsOfKeyLine(words[0], Join(words[1..], " "));
    }
  }

  /** Joining the fields of a string with single spaces normalises it: doing it
      twice changes nothing. */
  lemma NormaliseIdempotent(s: string)
    ensures var n := Join(Fields(s), " "); Join(Fields(n), " ") == n
  {
    FieldsOfJoin(Fields(s));
  }

  // ---------------------------------------------------------------------------
  // Split and Join
  // ---------------------------------------------------------------------------

  /** A join whose pieces and separator avoid `c` avoids `c`. */
  lemma {:induction false} JoinAvoids(parts: seq<string>, sep: string, c: char)
    requires forall i :: 0 <= i < |parts| ==> c !in parts[i]
    requires c !in sep
    ensures c !in Join(parts, sep)
  {
    if |parts| > 1 {
      JoinAvoids(parts[1..], sep, c);
    }
  }

  /** Joining a piece in front of a non-empty list adds one separator. */
  lemma JoinCons(p: string, rest: seq<string>, sep: string)
    requires |rest| > 0
    ensures Join([p] + rest, sep) == p + sep + Join(rest, sep)
  {
    assert ([p] + rest)[1..] == rest;
  }

  /** Joining two non-empty lists puts one separator between their joins. */
  lemma {:induction false} JoinAppend(a: seq<string>, b: seq<string>, sep: string)
    requires |a| > 0 && |b| > 0
    ensures Join(a + b, sep) == Join(a, sep) + sep + Join(b, sep)
  {
    if |a| == 1 {
      assert (a + b)[1..] == b;
    } else {
      assert (a + b)[1..] == a[1..] + b;
      JoinAppend(a[1..], b, sep);
    }
  }

  /** No piece of a split contains the separator. */
  lemma {:induction false} SplitPieces(s: string, c: char)
    ensures forall i :: 0 <= i < |Split(s, c)| ==> c !in Split(s, c)[i]
    decreases |s|
  {
    var i := IndexOf(s, c);
    if i >= 0 {
      SplitPieces(s[i + 1..], c);
    }
  }

  /** Splitting then joining with the same character gives the string back. */
  lemma {:induction false} JoinSplit(s: string, c: char)
    ensures Join(Split(s, c), [c]) == s
    decreases |s|
  {
    var i := IndexOf(s, c);
    if i >= 0 {
      var rest := Split(s[i + 1..], c);
      JoinSplit(s[i + 1..], c);
      JoinCons(s[..i], rest, [c]);
      assert s == s[..i] + [c] + s[i + 1..];
    }
  }

  /** Splitting at a separator: the pieces of the two sides, concatenated. */
  lemma {:induction false} SplitAround(x: string, y: string, c: char)
    requires c !in x
    ensures Split(x + [c] + y, c) == [x] + Split(y, c)
  {
    var s := x + [c] + y;
    assert s[|x|] == c;
    assert s[..|x|] == x;
    assert IndexOf(s, c) == |x|;
    assert s[|x| + 1..] == y;
  }

  /** Joining pieces that avoid `c` and splitting on `c` gives the pieces back. */
  lemma {:induction false} SplitJoin(parts: seq<string>, c: char)
    requires |parts| >= 1
    requires forall i :: 0 <= i < |parts| ==> c !in parts[i]
    ensures Split(Join(parts, [c]), c) == parts
  {
    if |parts| == 1 {
      assert IndexOf(parts[0], c) == -1;
    } else {
      SplitJoin(parts[1..], c);
      SplitAround(parts[0], Join(parts[1..], [c]), c);
    }
  }

  lemma Assoc<X>(a: seq<X>, b: seq<X>, d: seq<X>)
    ensures a + (b + d) == (a + b) + d
  {
  }

  lemma AppendHead<X>(prior: seq<X>, s: seq<X>)
    requires |s| > 0
    ensures prior + s == (prior + [s[0]]) + s[1..]
  {
    assert s == [s[0]] + s[1..];
    Assoc(prior, [s[0]], s[1..]);
  }

  lemma Cons<X>(x: X, rest: seq<X>)
    ensures ([x] + rest)[0] == x && ([x] + rest)[1..] == rest
  {
  }

  /** Splitting at any occurrence of the separator: the pieces of the two sides. */
  lemma {:induction false} SplitAppend(x: string, y: string, c: char)
    ensures Split(x + [c] + y, c) == Split(x, c) + Split(y, c)
    decreases |x|
  {
    var i := IndexOf(x, c);
    if i < 0 {
      SplitAround(x, y, c);
    } else {
      var x1, x2 := x[..i], x[i + 1..];
      var z := x2 + [c] + y;
      assert x == x1 + [c] + x2;
      assert x + [c] + y == x1 + [c] + z;
      SplitAround(x1, z, c);
      SplitAppend(x2, y, c);
      SplitAround(x1, x2, c);
      Assoc([x1], Split(x2, c), Split(y, c));
    }
  }

  /** Split distributes over a join followed by one more separator. */
  lemma SplitJoinThen(parts: seq<string>, y: string, c: char)
    requires |parts| >= 1
    requires forall i :: 0 <= i < |parts| ==> c !in parts[i]
    ensures Split(Join(parts, [c]) + [c] + y, c) == parts + Split(y, c)
  {
    SplitAppend(Join(parts, [c]), y, c);
    SplitJoin(parts, c);
  }

  /** Text without white space has no line feed. */
  lemma NoSpaceNoNewline(s: string)
    requires NoSpace(s)
    ensures '\n' !in s
  {
  }

  /** A string normalised by `Fields` and `Join` has no line feed. */
  lemma NormalisedNoNewline(s: string)
    requires Join(Fields(s), " ") == s
    ensures '\n' !in s
  {
    var f := Fields(s);
    forall i | 0 <= i < |f| ensures '\n' !in f[i] {
      NoSpaceNoNewline(f[i]);
    }
    JoinAvoids(f, " ", '\n');
  }
}
