/**
 * Header framing of a decompressed loose object, `type size\0body`: the text
 * before the first NUL is the header, everything after it is the body.
 */
module Header {

  import opened GoStrings

  const NUL: char := 0 as char

  /** The first piece of splitting on NUL: the text before the first NUL, or
      the whole object when it has none. */
  function HeaderText(obj: string): (h: string)
    ensures NUL !in h
    ensures NUL in obj ==> |h| < |obj| && obj[..|h| + 1] == h + [NUL]
    ensures NUL !in obj ==> h == obj
  {
    var i := IndexOf(obj, NUL);
    assert i >= 0 ==> Split(obj, NUL)[0] == obj[..i];
    assert i >= 0 ==> obj[..i + 1] == obj[..i] + [NUL];
    Split(obj, NUL)[0]
  }

  /** The body: what follows the first NUL. When there is no NUL, `Index`
      returns -1 and slicing from 0 keeps the whole object. */
  function Body(obj: string): (b: string)
    ensures NUL in obj ==> obj == HeaderText(obj) + [NUL] + b
    ensures NUL !in obj ==> b == obj
  {
    var i := IndexOf(obj, NUL);
    assert i >= 0 ==> obj == obj[..i] + [NUL] + obj[i + 1..];
    obj[i + 1..]
  }

  /** The header's fields: the object type and its size are the first two. */
  function HeaderFields(obj: string): seq<string> {
    Fields(HeaderText(obj))
  }

  /** Framing recovers the type, the size and the body it was built from. */
  lemma FramingRoundTrip(objectType: string, size: string, body: string)
    requires IsField(objectType) && IsField(size)
    requires NUL !in objectType && NUL !in size
    ensures var obj := objectType + " " + size + [NUL] + body;
      && HeaderFields(obj) == [objectType, size]
      && Body(obj) == body
  {
    var h := objectType + " " + size;
    var obj := h + [NUL] + body;
    assert NUL !in h;
    assert obj[|h|] == NUL;
    var t := HeaderText(obj);
    assert t == h;
    FieldsOfKeyLine(objectType, size);
    FieldsAfterField(size, "");
    assert size + "" == size;
  }
}
