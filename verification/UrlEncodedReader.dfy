/** The read loop for URL-encoded bodies in src/formdecoder_fastcgi.c. */
module UrlEncodedReader {
  import opened CStrings

  /** A request's input stream.  A read gives some of what is left, and nothing only at the end. */
  class InputStream {
    var rest: string

    constructor (body: string)
      ensures rest == body
    {
      rest := body;
    }

    /** A read of at most n characters, as short as the transport likes. */
    method GetStr(n: nat) returns (chunk: string)
      modifies this
      ensures |chunk| <= n && old(rest) == chunk + rest
      ensures chunk == "" <==> n == 0 || old(rest) == ""
    {
      if n == 0 || rest == "" {
        return "";
      }
      var k :| 1 <= k <= n && k <= |rest|;
      chunk := rest[..k];
      rest := rest[k..];
    }
  }

  /** Reads the whole body into a buffer of maxSize characters; null when it does not fit with its terminator. */
  method ReadBody(input: InputStream, maxSize: nat) returns (buf: array?<char>)
    modifies input
    ensures buf != null <==> |old(input.rest)| < maxSize
    ensures buf != null ==> fresh(buf) && buf.Length == maxSize
    ensures buf != null ==>
      var body := old(input.rest); buf[..|body|] == body && buf[|body|] == NUL && input.rest == ""
  {
    var readBuf := new char[maxSize];
    var total := 0;
    ghost var body := input.rest;
    var chunk := "?";
    while chunk != ""
      invariant 0 <= total <= maxSize && readBuf[..total] + input.rest == body
      invariant chunk == "" ==> input.rest == "" && total < maxSize
      decreases |input.rest|, chunk != ""
    {
      var toRead := maxSize - total;
      if toRead == 0 {
        assert |body| == total + |input.rest|;
        return null;
      }
      ghost var filled := readBuf[..total];
      chunk := input.GetStr(toRead);
      forall i | 0 <= i < |chunk| { readBuf[total + i] := chunk[i]; }
      assert readBuf[..total] == filled && readBuf[total..total + |chunk|] == chunk;
      assert readBuf[..total + |chunk|] == filled + chunk;
      assert filled + (chunk + input.rest) == filled + chunk + input.rest;
      total := total + |chunk|;
    }
    if total >= maxSize {
      return null;
    }
    readBuf[total] := NUL;
    return readBuf;
  }
}
