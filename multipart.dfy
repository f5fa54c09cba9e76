/** Go's `mime/multipart.Writer` as the uploader drives it: the parts it has been given,
    in order, and the boundary its content type announces. The wire encoding of the
    parts is not modelled. */
module Multipart {
  import opened Strings
  import Hex

  /** A form part: a file with its name and bytes (`CreateFormFile` followed by the
      copy of the content), or a text field (`WriteField`). */
  datatype Part =
    | FilePart(field: string, filename: string, content: seq<Hex.byte>)
    | FieldPart(field: string, value: string)

  /** The 30 random bytes `randomBoundary` reads for a new writer. */
  type Entropy = r: seq<Hex.byte> | |r| == 30 witness seq(30, _ => 0 as Hex.byte)

  /** The characters (RFC 2045 tspecials and space) that force the boundary to be quoted. */
  const TSpecials: string := "()<>@,;:\\\"/[]?= "

  const FormDataPrefix: string := "multipart/form-data; boundary="

  predicate NeedsQuoting(boundary: string) {
    exists i :: 0 <= i < |boundary| && boundary[i] in TSpecials
  }

  /** `Writer.FormDataContentType()` for a writer with this boundary. */
  function FormDataContentType(boundary: string): (r: string)
    ensures HasPrefix(r, FormDataPrefix)
    ensures NeedsQuoting(boundary) <==> r[|FormDataPrefix|..] != boundary
    ensures NeedsQuoting(boundary) ==> r == FormDataPrefix + "\"" + boundary + "\""
    ensures !NeedsQuoting(boundary) ==> r == FormDataPrefix + boundary
  {
    if NeedsQuoting(boundary) then
      var quoted := "\"" + boundary + "\"";
      assert quoted[|quoted| - 1] == '"' && (|boundary| == 0 || quoted[1..] != boundary);
      assert quoted != boundary by {
        if |boundary| == |quoted| { assert false; }
      }
      FormDataPrefix + quoted
    else FormDataPrefix + boundary
  }

  /** The boundaries `multipart.NewWriter` makes (hex text) are never quoted. */
  lemma HexBoundaryUnquoted(random: Entropy)
    ensures FormDataContentType(Hex.Encode(random)) == FormDataPrefix + Hex.Encode(random)
  {
    var b := Hex.Encode(random);
    assert forall c :: Hex.IsLowerHex(c) ==> c !in TSpecials;
    assert !NeedsQuoting(b);
  }

  class Writer {
    const boundary: string
    var parts: seq<Part>
    var closed: bool

    /** `multipart.NewWriter`: an empty writer whose boundary is the hex text of its random bytes. */
    constructor (random: Entropy)
      ensures boundary == Hex.Encode(random)
      ensures parts == [] && !closed
    {
      boundary := Hex.Encode(random);
      parts := [];
      closed := false;
    }

    /** `CreateFormFile(field, filename)` and the copy of `content` into the part it returns. */
    method CreateFormFile(field: string, filename: string, content: seq<Hex.byte>)
      modifies this
      ensures parts == old(parts) + [FilePart(field, filename, content)]
      ensures closed == old(closed)
    {
      parts := parts + [FilePart(field, filename, content)];
    }

    /** `WriteField(field, value)`. */
    method WriteField(field: string, value: string)
      modifies this
      ensures parts == old(parts) + [FieldPart(field, value)]
      ensures closed == old(closed)
    {
      parts := parts + [FieldPart(field, value)];
    }

    /** `Close()`: the closing boundary is written; the parts are final. */
    method Close()
      modifies this
      ensures closed && parts == old(parts)
    {
      closed := true;
    }

    function ContentType(): (contentType: string) {
      FormDataContentType(boundary)
    }
  }
}
