/** The part of Go's `net/http` the uploader uses: a request whose headers are set one
    at a time with `Header.Set`, which stores each key in canonical form. */
module Http {
  import Multipart

  /** `validHeaderFieldByte`: the token characters of RFC 7230. */
  predicate IsTokenChar(c: char) {
    || 'a' <= c <= 'z' || 'A' <= c <= 'Z' || '0' <= c <= '9'
    || c == '!' || c == '#' || c == '$' || c == '%' || c == '&' || c == '\'' || c == '*'
    || c == '+' || c == '-' || c == '.' || c == '^' || c == '_' || c == '`' || c == '|' || c == '~'
  }

  predicate IsToken(s: string) {
    forall i :: 0 <= i < |s| ==> IsTokenChar(s[i])
  }

  function ToUpper(c: char): (u: char) {
    if 'a' <= c <= 'z' then (c as int - 32) as char else c
  }

  function ToLower(c: char): (l: char) {
    if 'A' <= c <= 'Z' then (c as int + 32) as char else c
  }

  /** The letter case a canonical key has at position `i`: upper at the start and after `-`. */
  function CanonicalAt(s: string, i: int): (c: char)
    requires 0 <= i < |s|
  {
    if i == 0 || s[i - 1] == '-' then ToUpper(s[i]) else ToLower(s[i])
  }

  /** `textproto.CanonicalMIMEHeaderKey`: a key made only of token characters gets an upper-case
      letter first and after every `-` and lower case elsewhere; any other key is left as it is. */
  function CanonicalHeaderKey(s: string): (r: string)
    ensures |r| == |s|
    ensures IsToken(s) ==> forall i :: 0 <= i < |s| ==> r[i] == CanonicalAt(s, i)
    ensures !IsToken(s) ==> r == s
  {
    if IsToken(s) then seq(|s|, i requires 0 <= i < |s| => CanonicalAt(s, i)) else s
  }

  /** A canonical key is canonical already. */
  lemma CanonicalIdempotent(s: string)
    ensures CanonicalHeaderKey(CanonicalHeaderKey(s)) == CanonicalHeaderKey(s)
  {
    var r := CanonicalHeaderKey(s);
    if IsToken(s) {
      assert forall i :: 0 <= i < |s| ==> (s[i] == '-' <==> r[i] == '-');
      assert IsToken(r);
    }
  }

  /** Token keys that differ only in letter case name the same header (a key with a
      space or another non-token character is kept as written, so case matters there). */
  lemma CanonicalIgnoresCase(a: string, b: string)
    requires IsToken(a) && |a| == |b|
    requires forall i :: 0 <= i < |a| ==> ToLower(a[i]) == ToLower(b[i])
    ensures CanonicalHeaderKey(a) == CanonicalHeaderKey(b)
  {
    assert forall i :: 0 <= i < |a| ==> IsTokenChar(b[i]);
    forall i | 0 <= i < |a|
      ensures CanonicalAt(a, i) == CanonicalAt(b, i)
    {
      assert ToUpper(a[i]) == ToUpper(b[i]);
      assert i > 0 ==> (a[i - 1] == '-' <==> b[i - 1] == '-');
    }
  }

  class Request {
    const verb: string
    const url: string
    const body: seq<Multipart.Part>
    var header: map<string, string>

    /** `http.NewRequest(verb, url, body)` once the URL has parsed: no headers yet. */
    constructor (verb: string, url: string, body: seq<Multipart.Part>)
      ensures this.verb == verb && this.url == url && this.body == body
      ensures header == map[]
    {
      this.verb := verb;
      this.url := url;
      this.body := body;
      header := map[];
    }

    /** `req.Header.Set(key, value)`: replaces any value under the canonical key. */
    method Set(key: string, value: string)
      modifies this
      ensures header == old(header)[CanonicalHeaderKey(key) := value]
    {
      header := header[CanonicalHeaderKey(key) := value];
    }
  }
}
