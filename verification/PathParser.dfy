/** The path parser and percent decoder of src/HTTPUtils.cpp and src/HTTPUtils.hpp (percent-encoding is section 2.1 of
    RFC 3986). */
module PathParser {
  import opened CStrings

  function HexVal(c: char): (v: int)
    ensures -1 <= v < 16
  {
    if '0' <= c <= '9' then c as int - '0' as int
    else if 'a' <= c <= 'f' then c as int - 'a' as int + 10
    else if 'A' <= c <= 'F' then c as int - 'A' as int + 10
    else -1
  }

  /** The digits of both letter cases, and nothing else, have values. */
  lemma HexValIs(c: char, v: nat)
    requires v < 16
    ensures HexVal(c) == v <==> c == "0123456789abcdef"[v] || c == "0123456789ABCDEF"[v]
  {
  }

  function Cons(c: char, rest: Option<string>): Option<string> {
    if rest.None? then None else Some([c] + rest.value)
  }

  /** Percent-decoding of a whole segment; None on a malformed escape. */
  function Decode(s: string): (r: Option<string>)
    ensures r.Some? ==> |r.value| <= |s| && (s != "" ==> r.value != "")
  {
    if s == "" then Some("")
    else if s[0] != '%' then Cons(s[0], Decode(s[1..]))
    else if |s| < 3 || HexVal(s[1]) < 0 || HexVal(s[2]) < 0 then None
    else Cons((16 * HexVal(s[1]) + HexVal(s[2])) as char, Decode(s[3..]))
  }

  function Append(done: string, rest: Option<string>): Option<string> {
    if rest.None? then None else Some(done + rest.value)
  }

  /** One character or one escape of the text from i on. */
  lemma DecodeAt(s: string, i: nat, done: string)
    requires i <= |s|
    ensures i == |s| ==> Append(done, Decode(s[i..])) == Some(done)
    ensures i < |s| && s[i] != '%' ==> Append(done, Decode(s[i..])) == Append(done + [s[i]], Decode(s[i + 1..]))
    ensures i < |s| && s[i] == '%' ==>
      if i + 2 >= |s| || HexVal(s[i + 1]) < 0 || HexVal(s[i + 2]) < 0 then Append(done, Decode(s[i..])) == None
      else Append(done, Decode(s[i..])) ==
           Append(done + [(16 * HexVal(s[i + 1]) + HexVal(s[i + 2])) as char], Decode(s[i + 3..]))
  {
    hide HexVal;
    var t := s[i..];
    if i < |s| && s[i] != '%' {
      assert t[1..] == s[i + 1..];
      AppendCons(done, s[i], Decode(s[i + 1..]));
    } else if i < |s| && i + 2 < |s| && HexVal(s[i + 1]) >= 0 && HexVal(s[i + 2]) >= 0 {
      assert t[3..] == s[i + 3..];
      AppendCons(done, (16 * HexVal(s[i + 1]) + HexVal(s[i + 2])) as char, Decode(s[i + 3..]));
    } else if i == |s| {
      assert done + "" == done;
    }
  }

  lemma AppendCons(done: string, c: char, rest: Option<string>)
    ensures Append(done, Cons(c, rest)) == Append(done + [c], rest)
  {
    assert rest.Some? ==> done + ([c] + rest.value) == done + [c] + rest.value;
  }

  predicate Malformed(s: string) {
    s != "" && s[0] == '%' && (|s| < 3 || HexVal(s[1]) < 0 || HexVal(s[2]) < 0)
  }

  /** How much text stands in front of the first malformed escape. */
  function FrontLength(s: string): (n: nat)
    ensures n <= |s|
  {
    if s == "" || Malformed(s) then 0
    else if s[0] != '%' then 1 + FrontLength(s[1..])
    else 3 + FrontLength(s[3..])
  }

  /** The decoding of that text. */
  function Front(s: string): string {
    if s == "" || Malformed(s) then ""
    else if s[0] != '%' then [s[0]] + Front(s[1..])
    else [(16 * HexVal(s[1]) + HexVal(s[2])) as char] + Front(s[3..])
  }

  /** The text in front of the first malformed escape decodes; it is the whole text exactly when the text decodes. */
  lemma {:induction false} FrontDecodes(s: string)
    ensures Decode(s[..FrontLength(s)]) == Some(Front(s))
    ensures FrontLength(s) == |s| <==> Decode(s).Some?
    ensures FrontLength(s) < |s| ==> Malformed(s[FrontLength(s)..])
    decreases |s|
  {
    hide HexVal;
    if s != "" && !Malformed(s) {
      var k := if s[0] != '%' then 1 else 3;
      var n := FrontLength(s[k..]);
      FrontDecodes(s[k..]);
      assert s[..k + n][k..] == s[k..][..n];
      assert s[k..][n..] == s[k + n..];
    }
  }

  lemma FrontAt(s: string, i: nat, done: string)
    requires i <= |s|
    ensures i == |s| || Malformed(s[i..]) ==> done + Front(s[i..]) == done
    ensures i < |s| && s[i] != '%' ==> done + Front(s[i..]) == done + [s[i]] + Front(s[i + 1..])
    ensures i + 2 < |s| && s[i] == '%' && HexVal(s[i + 1]) >= 0 && HexVal(s[i + 2]) >= 0 ==>
      done + Front(s[i..]) == done + [(16 * HexVal(s[i + 1]) + HexVal(s[i + 2])) as char] + Front(s[i + 3..])
  {
    hide HexVal;
    if i < |s| && s[i] != '%' {
      assert s[i..][1..] == s[i + 1..];
    } else if i + 2 < |s| {
      assert s[i..][3..] == s[i + 3..];
    }
  }

  /** Appends the decoding; after a malformed escape, of the text in front of it. */
  method AppendPercentDecoded(src: string, dst: string) returns (ok: bool, out: string)
    ensures ok <==> Decode(src).Some?
    ensures ok ==> out == dst + Decode(src).value
    ensures out == dst + Front(src)
  {
    hide Decode, HexVal, Front, FrontLength;
    out := dst;
    var i := 0;
    assert src[0..] == src;
    while i < |src|
      invariant 0 <= i <= |src|
      invariant Append(out, Decode(src[i..])) == Append(dst, Decode(src))
      invariant out + Front(src[i..]) == dst + Front(src)
    {
      DecodeAt(src, i, out);
      FrontAt(src, i, out);
      var c := src[i];
      if c != '%' {
        out := out + [c];
        i := i + 1;
        continue;
      }
      if i + 2 >= |src| {
        return false, out;
      }
      var hi := HexVal(src[i + 1]);
      var lo := HexVal(src[i + 2]);
      if hi < 0 || lo < 0 {
        return false, out;
      }
      out := out + [(16 * hi + lo) as char];
      i := i + 3;
    }
    DecodeAt(src, i, out);
    FrontAt(src, i, out);
    return true, out;
  }

  /** The non-empty pieces between slashes. */
  function Segments(s: string): seq<string>
    decreases |s|
  {
    var slash := IndexOf(s, '/', 0);
    NonEmpty(s[..slash]) + (if slash == |s| then [] else Segments(s[slash + 1..]))
  }

  function NonEmpty(segment: string): seq<string> {
    if segment == "" then [] else [segment]
  }

  function DecodeAll(segments: seq<string>): Option<seq<string>> {
    if segments == [] then Some([])
    else
      var first, rest := Decode(segments[0]), DecodeAll(segments[1..]);
      if first.None? || rest.None? then None else Some([first.value] + rest.value)
  }

  /** What a path means: None for the empty path and for a malformed escape in any segment. */
  function Meaning(raw: string): Option<seq<string>> {
    if raw == "" then None else DecodeAll(Segments(raw))
  }

  datatype Range = Range(offset: nat, length: nat)

  datatype ParsedPath = ParsedPath(storage: string, ranges: seq<Range>) {
    /** The ranges cover the storage from the front to the back, in order, without gaps, and none is empty. */
    predicate Tiles() {
      && (forall i | 0 <= i < |ranges| :: ranges[i].length > 0 && ranges[i].offset + ranges[i].length <= |storage|)
      && (|ranges| == 0 ==> storage == "")
      && (|ranges| > 0 ==> ranges[0].offset == 0)
      && (|ranges| > 0 ==> ranges[|ranges| - 1].offset + ranges[|ranges| - 1].length == |storage|)
      && (forall i | 0 < i < |ranges| :: ranges[i].offset == ranges[i - 1].offset + ranges[i - 1].length)
    }

    function GetIdx(i: nat): string
      requires Tiles()
    {
      if i >= |ranges| then "" else storage[ranges[i].offset..ranges[i].offset + ranges[i].length]
    }

    function Contents(): (r: seq<string>)
      requires Tiles()
      ensures |r| == |ranges|
    {
      seq(|ranges|, i requires 0 <= i => GetIdx(i))
    }
  }

  function Extended(p: ParsedPath, seg: string): ParsedPath {
    ParsedPath(p.storage + seg, p.ranges + [Range(|p.storage|, |seg|)])
  }

  lemma ExtendedTiles(p: ParsedPath, seg: string)
    requires p.Tiles() && seg != ""
    ensures Extended(p, seg).Tiles()
  {
    var q := Extended(p, seg);
    assert forall i | 0 <= i < |p.ranges| :: q.ranges[i] == p.ranges[i];
    assert q.ranges[|p.ranges|] == Range(|p.storage|, |seg|);
  }

  lemma ExtendedAt(p: ParsedPath, seg: string, i: nat)
    requires p.Tiles() && Extended(p, seg).Tiles() && i <= |p.ranges|
    ensures Extended(p, seg).GetIdx(i) == if i < |p.ranges| then p.GetIdx(i) else seg
  {
    var q := Extended(p, seg);
    if i < |p.ranges| {
      var r := p.ranges[i];
      assert q.ranges[i] == r;
      assert q.storage[r.offset..r.offset + r.length] == p.storage[r.offset..r.offset + r.length];
    } else {
      assert q.ranges[i] == Range(|p.storage|, |seg|);
    }
  }

  lemma ExtendedContents(p: ParsedPath, seg: string)
    requires p.Tiles() && Extended(p, seg).Tiles()
    ensures Extended(p, seg).Contents() == p.Contents() + [seg]
  {
    hide ParsedPath.Tiles, ParsedPath.GetIdx;
    forall i | 0 <= i <= |p.ranges|
      ensures Extended(p, seg).GetIdx(i) == if i < |p.ranges| then p.GetIdx(i) else seg
    {
      ExtendedAt(p, seg, i);
    }
  }

  lemma SegmentsStep(s: string, slash: nat)
    requires slash == IndexOf(s, '/', 0)
    ensures Segments(s) == NonEmpty(s[..slash]) + (if slash == |s| then [] else Segments(s[slash + 1..]))
  {
    hide IndexOf, NonEmpty;
  }

  lemma SegmentsAt(raw: string, start: nat, slash: nat)
    requires start <= |raw| && slash == IndexOf(raw, '/', start)
    ensures Segments(raw[start..]) ==
      NonEmpty(raw[start..slash]) + (if slash == |raw| then [] else Segments(raw[slash + 1..]))
  {
    hide IndexOf, Segments, NonEmpty;
    IndexOfShift(raw, '/', start, 0);
    var rest := raw[start..];
    SegmentsStep(rest, slash - start);
    assert rest[..slash - start] == raw[start..slash];
    assert slash < |raw| ==> rest[slash - start + 1..] == raw[slash + 1..];
  }

  lemma {:induction false} TrailingSlash(s: string)
    ensures Segments(s + "/") == Segments(s)
    decreases |s|
  {
    hide IndexOf, Segments;
    var t := s + "/";
    var slash := IndexOf(s, '/', 0);
    IndexOfFirst(s, '/', 0);
    IndexIs(t, '/', 0, slash);
    SegmentsStep(s, slash);
    SegmentsStep(t, slash);
    assert t[..slash] == s[..slash];
    if slash < |s| {
      assert t[slash + 1..] == s[slash + 1..] + "/";
      TrailingSlash(s[slash + 1..]);
    } else {
      assert t[slash + 1..] == "";
      NoSegments();
    }
  }

  lemma NoSegments()
    ensures Segments("") == [] && DecodeAll([]) == Some([])
  {
  }

  function Prepend(done: seq<string>, rest: Option<seq<string>>): Option<seq<string>> {
    if rest.None? then None else Some(done + rest.value)
  }

  lemma DecodeFirst(done: seq<string>, seg: string, rest: seq<string>)
    ensures Prepend(done, DecodeAll([seg] + rest)) ==
      if Decode(seg).None? then None else Prepend(done + [Decode(seg).value], DecodeAll(rest))
  {
    hide Decode;
    assert ([seg] + rest)[1..] == rest;
    if Decode(seg).Some? && DecodeAll(rest).Some? {
      assert done + ([Decode(seg).value] + DecodeAll(rest).value) == done + [Decode(seg).value] + DecodeAll(rest).value;
    }
  }

  /** One turn of the loop over the segments. */
  lemma PathStep(raw: string, start: nat, slash: nat, done: seq<string>)
    requires start <= |raw| && slash == IndexOf(raw, '/', start)
    ensures
      var seg := raw[start..slash];
      var rest := if slash == |raw| then Some([]) else DecodeAll(Segments(raw[slash + 1..]));
      Prepend(done, DecodeAll(Segments(raw[start..]))) ==
      if seg == "" then Prepend(done, rest)
      else if Decode(seg).None? then None
      else Prepend(done + [Decode(seg).value], rest)
  {
    hide IndexOf, Segments, DecodeAll, Decode, Prepend;
    var seg := raw[start..slash];
    var rest := if slash == |raw| then [] else Segments(raw[slash + 1..]);
    SegmentsAt(raw, start, slash);
    DecodeFirst(done, seg, rest);
    NoSegments();
    assert [] + rest == rest;
  }

  function WithoutTrailingSlash(path: string): string {
    if path != "" && path[|path| - 1] == '/' then path[..|path| - 1] else path
  }

  method AddSegment(p: ParsedPath, seg: string) returns (ok: bool, q: ParsedPath)
    requires p.Tiles() && seg != ""
    ensures ok <==> Decode(seg).Some?
    ensures ok ==> q.Tiles() && q.Contents() == p.Contents() + [Decode(seg).value]
    ensures ok ==> |q.storage| == |p.storage| + |Decode(seg).value|
  {
    hide Decode, ParsedPath.Tiles, ParsedPath.Contents;
    var storage;
    q := p;
    ok, storage := AppendPercentDecoded(seg, p.storage);
    if ok {
      ghost var decoded := Decode(seg).value;
      ExtendedTiles(p, decoded);
      ExtendedContents(p, decoded);
      q := ParsedPath(storage, p.ranges + [Range(|p.storage|, |storage| - |p.storage|)]);
      assert q == Extended(p, decoded);
    }
  }

  method ParsePath(path: string) returns (r: Option<ParsedPath>)
    ensures r.None? <==> Meaning(path).None?
    ensures r.Some? ==> r.value.Tiles() && r.value.Contents() == Meaning(path).value
    ensures r.Some? ==> |r.value.storage| <= |WithoutTrailingSlash(path)|
  {
    hide IndexOf, Segments, DecodeAll, Decode, ParsedPath.Tiles, ParsedPath.Contents, Prepend;
    if path == "" {
      return None;
    }
    var raw := WithoutTrailingSlash(path);
    if raw != path {
      assert path == raw + "/";
      TrailingSlash(raw);
    }
    ghost var all := DecodeAll(Segments(raw));
    var out := ParsedPath("", []);
    var start := 0;
    assert raw[0..] == raw;
    EmptyPath(all);
    NoSegments();
    while start <= |raw|
      invariant 0 <= start <= |raw|
      invariant out.Tiles() && |out.storage| <= start
      invariant all == Prepend(out.Contents(), DecodeAll(Segments(raw[start..])))
      decreases |raw| - start
    {
      var slash := IndexOf(raw, '/', start);
      var seg := raw[start..slash];
      PathStep(raw, start, slash, out.Contents());
      if seg != "" {
        var ok, more := AddSegment(out, seg);
        if !ok {
          return None;
        }
        out := more;
      }
      if slash == |raw| {
        break;
      }
      start := slash + 1;
    }
    PrependNone(out.Contents());
    return Some(out);
  }

  lemma EmptyPath(rest: Option<seq<string>>)
    ensures ParsedPath("", []).Tiles() && ParsedPath("", []).Contents() == [] && Prepend([], rest) == rest
  {
    assert rest.Some? ==> [] + rest.value == rest.value;
  }

  lemma PrependNone(done: seq<string>)
    ensures Prepend(done, Some([])) == Some(done)
  {
    assert done + [] == done;
  }

  // Writing paths.

  predicate IsEscapeOf(e: string, c: char) {
    |e| == 3 && e[0] == '%' && HexVal(e[1]) >= 0 && HexVal(e[2]) >= 0 &&
    16 * HexVal(e[1]) + HexVal(e[2]) == c as int
  }

  /** e is a percent-encoding of v: any character may be escaped, in either letter case; `%` and `/` must be. */
  predicate Encodes(v: string, e: string) {
    if v == "" then e == ""
    else
      || (v[0] != '%' && v[0] != '/' && e != "" && e[0] == v[0] && Encodes(v[1..], e[1..]))
      || (|e| >= 3 && IsEscapeOf(e[..3], v[0]) && Encodes(v[1..], e[3..]))
  }

  lemma {:induction false} DecodeEncoded(v: string, e: string)
    requires Encodes(v, e)
    ensures Decode(e) == Some(v) && '/' !in e && (v != "" ==> e != "")
  {
    if v != "" {
      assert v == [v[0]] + v[1..];
      if v[0] != '%' && v[0] != '/' && e != "" && e[0] == v[0] && Encodes(v[1..], e[1..]) {
        DecodeEncoded(v[1..], e[1..]);
        assert e == [e[0]] + e[1..];
      } else {
        DecodeEncoded(v[1..], e[3..]);
        assert e == [e[0], e[1], e[2]] + e[3..];
      }
    }
  }

  /** A text decodes to v without holding a slash exactly when it is a percent-encoding of v. */
  lemma {:induction false} EncodesIff(v: string, e: string)
    ensures Encodes(v, e) <==> Decode(e) == Some(v) && '/' !in e
    decreases |e|
  {
    hide HexVal;
    if Encodes(v, e) {
      DecodeEncoded(v, e);
    }
    if Decode(e) == Some(v) && '/' !in e && e != "" {
      var k := if e[0] != '%' then 1 else 3;
      assert v[1..] == Decode(e[k..]).value;
      EncodesIff(v[1..], e[k..]);
    }
  }

  function HexUpper(n: nat): (c: char)
    requires n < 16
    ensures HexVal(c) == n
  {
    if n < 10 then '0' + n as char else 'A' + (n - 10) as char
  }

  /** The encoder that escapes exactly what it must. */
  function Encode(v: string): string {
    if v == "" then ""
    else if v[0] == '%' || v[0] == '/' then
      ['%', HexUpper(v[0] as int / 16), HexUpper(v[0] as int % 16)] + Encode(v[1..])
    else [v[0]] + Encode(v[1..])
  }

  lemma {:induction false} EncodeEncodes(v: string)
    ensures Encodes(v, Encode(v))
  {
    if v != "" {
      EncodeEncodes(v[1..]);
      var e, rest := Encode(v), Encode(v[1..]);
      if v[0] == '%' || v[0] == '/' {
        assert e[3..] == rest && e[..3] == ['%', HexUpper(v[0] as int / 16), HexUpper(v[0] as int % 16)];
      } else {
        assert e[1..] == rest;
      }
    }
  }

  function Slashes(n: nat): (r: string)
    ensures |r| == n
  {
    seq(n, _ => '/')
  }

  /** Segments written one after the other, with at least one slash between two of them and any number of extra slashes
      in front, between and behind. */
  function Join(es: seq<string>, extra: seq<nat>): string
    requires |extra| == |es| + 1
  {
    if es == [] then Slashes(extra[0])
    else Slashes(extra[0]) + (es[0] + ((if |es| > 1 then "/" else "") + Join(es[1..], extra[1..])))
  }

  lemma {:induction false} LeadingSlashes(n: nat, s: string)
    ensures Segments(Slashes(n) + s) == Segments(s)
  {
    hide Segments, IndexOf;
    if n == 0 {
      assert Slashes(n) + s == s;
    } else {
      var t := Slashes(n) + s;
      IndexIs(t, '/', 0, 0);
      SegmentsStep(t, 0);
      assert t[1..] == Slashes(n - 1) + s;
      LeadingSlashes(n - 1, s);
      assert [] + Segments(t[1..]) == Segments(t[1..]);
    }
  }

  /** A segment in front of a slash or of the end. */
  lemma FirstSegment(e: string, rest: string)
    requires e != "" && '/' !in e && (rest == "" || rest[0] == '/')
    ensures Segments(e + rest) == [e] + Segments(rest)
  {
    hide Segments, IndexOf;
    var t := e + rest;
    assert forall i | 0 <= i < |e| :: t[i] == e[i] && e[i] in e;
    IndexIs(t, '/', 0, |e|);
    SegmentsStep(t, |e|);
    assert t[..|e|] == e;
    if rest == "" {
      NoSegments();
    } else {
      assert t[|e| + 1..] == rest[1..];
      IndexIs(rest, '/', 0, 0);
      SegmentsStep(rest, 0);
      assert [] + Segments(rest[1..]) == Segments(rest[1..]);
    }
  }

  lemma {:induction false} SegmentsJoin(es: seq<string>, extra: seq<nat>)
    requires |extra| == |es| + 1 && forall e | e in es :: e != "" && '/' !in e
    ensures Segments(Join(es, extra)) == es
  {
    hide Segments;
    if es == [] {
      LeadingSlashes(extra[0], "");
      assert Slashes(extra[0]) + "" == Slashes(extra[0]);
      NoSegments();
    } else {
      assert es[0] in es && forall e | e in es[1..] :: e in es;
      SegmentsJoin(es[1..], extra[1..]);
      var tail := Join(es[1..], extra[1..]);
      var rest := (if |es| > 1 then "/" else "") + tail;
      assert |es| > 1 ==> rest == Slashes(1) + tail;
      assert |es| == 1 ==> rest == tail == Slashes(extra[1]);
      LeadingSlashes(1, tail);
      FirstSegment(es[0], rest);
      LeadingSlashes(extra[0], es[0] + rest);
      assert es == [es[0]] + es[1..];
    }
  }

  lemma {:induction false} DecodeAllEncoded(vs: seq<string>, es: seq<string>)
    requires |vs| == |es| && forall i | 0 <= i < |vs| :: Encodes(vs[i], es[i])
    ensures DecodeAll(es) == Some(vs)
  {
    hide Encodes, Decode;
    if vs != [] {
      DecodeEncoded(vs[0], es[0]);
      DecodeAllEncoded(vs[1..], es[1..]);
      assert vs == [vs[0]] + vs[1..];
    }
  }

  /** Parsing gives back any list of non-empty strings, however each is percent-encoded and however many slashes stand
      around them; an encoded slash never splits a segment.  Only the empty path, which has no slash at all, fails. */
  lemma ParseWritten(vs: seq<string>, es: seq<string>, extra: seq<nat>)
    requires |vs| == |es| && |extra| == |es| + 1
    requires forall i | 0 <= i < |vs| :: vs[i] != "" && Encodes(vs[i], es[i])
    ensures Meaning(Join(es, extra)) == if vs == [] && extra[0] == 0 then None else Some(vs)
  {
    hide Encodes, Decode, Segments;
    forall e | e in es
      ensures e != "" && '/' !in e
    {
      var i :| 0 <= i < |es| && es[i] == e;
      DecodeEncoded(vs[i], es[i]);
    }
    SegmentsJoin(es, extra);
    DecodeAllEncoded(vs, es);
    if vs != [] {
      assert es[0] in es;
      assert |Join(es, extra)| >= |es[0]|;
    }
  }

  /** es and extra are a way of writing the list. */
  ghost predicate Writes(vs: seq<string>, es: seq<string>, extra: seq<nat>) {
    |vs| == |es| && |extra| == |es| + 1 && forall i | 0 <= i < |vs| :: vs[i] != "" && Encodes(vs[i], es[i])
  }

  /** The parser gives a list for a path exactly when the path is not empty and is some way of writing the list. */
  lemma MeaningIff(path: string, vs: seq<string>)
    ensures Meaning(path) == Some(vs) <==>
      path != "" && exists es, extra | Writes(vs, es, extra) :: path == Join(es, extra)
  {
    hide Encodes, Decode, DecodeAll, Segments, Join;
    if Meaning(path) == Some(vs) {
      var extra := Spread(path);
      var es := Segments(path);
      AllDecoded(es, vs);
      SegmentsPlain(path);
      forall i | 0 <= i < |vs|
        ensures vs[i] != "" && Encodes(vs[i], es[i])
      {
        assert es[i] in es;
        DecodedSize(es[i]);
        EncodesIff(vs[i], es[i]);
      }
      assert Writes(vs, es, extra);
    }
    forall es, extra | Writes(vs, es, extra) && path == Join(es, extra) && path != ""
      ensures Meaning(path) == Some(vs)
    {
      ParseWritten(vs, es, extra);
      JoinNothing(es, extra);
    }
  }

  lemma JoinNothing(es: seq<string>, extra: seq<nat>)
    requires |extra| == |es| + 1
    ensures es == [] && extra[0] == 0 ==> Join(es, extra) == ""
  {
  }

  lemma DecodedSize(e: string)
    ensures e != "" && Decode(e).Some? ==> Decode(e).value != ""
  {
  }

  lemma {:induction false} AllDecoded(es: seq<string>, vs: seq<string>)
    requires DecodeAll(es) == Some(vs)
    ensures |vs| == |es| && forall i | 0 <= i < |vs| :: Decode(es[i]) == Some(vs[i])
  {
    hide Decode;
    if es != [] {
      AllDecoded(es[1..], vs[1..]);
      forall i | 0 <= i < |vs|
        ensures Decode(es[i]) == Some(vs[i])
      {
        if i > 0 {
          var k := i - 1;
          assert es[1..][k] == es[i] && vs[1..][k] == vs[i];
        }
      }
    }
  }

  lemma {:induction false} SegmentsPlain(path: string)
    ensures forall e | e in Segments(path) :: e != "" && '/' !in e
    decreases |path|
  {
    hide Segments, IndexOf;
    var slash := IndexOf(path, '/', 0);
    IndexOfFirst(path, '/', 0);
    SegmentsStep(path, slash);
    var first := path[..slash];
    assert '/' !in first by { assert forall i | 0 <= i < slash :: first[i] == path[i]; }
    if slash < |path| {
      SegmentsPlain(path[slash + 1..]);
    }
  }

  /** Every path is its segments with slashes between and around them. */
  lemma {:induction false} Spread(path: string) returns (extra: seq<nat>)
    ensures |extra| == |Segments(path)| + 1 && path == Join(Segments(path), extra)
    decreases |path|
  {
    hide Segments, IndexOf, Join;
    var slash := IndexOf(path, '/', 0);
    SegmentsStep(path, slash);
    NoSegments();
    if path == "" {
      extra := [0];
      JoinNothing([], extra);
    } else if slash == |path| {
      assert path[..slash] == path;
      assert Segments(path) == [path];
      extra := [0, 0];
      JoinOne(path, 0);
      assert path + Slashes(0) == path;
    } else {
      var e, rest := path[..slash], path[slash + 1..];
      assert path == e + ("/" + rest);
      var more := Spread(rest);
      if e == "" {
        extra := more[0 := more[0] + 1];
        JoinLeading(Segments(rest), more);
        assert Segments(path) == Segments(rest);
        assert "" + ("/" + rest) == "/" + rest;
      } else {
        assert Segments(path) == [e] + Segments(rest);
        extra := SpreadMore(e, Segments(rest), more);
      }
    }
  }

  lemma SpreadMore(e: string, es: seq<string>, more: seq<nat>) returns (extra: seq<nat>)
    requires |more| == |es| + 1
    ensures |extra| == |es| + 2 && Join([e] + es, extra) == e + ("/" + Join(es, more))
  {
    hide Join;
    if es == [] {
      extra := [0, more[0] + 1];
      JoinOne(e, more[0] + 1);
      JoinEmpty(more);
      assert "/" + Slashes(more[0]) == Slashes(more[0] + 1);
      assert [e] + es == [e];
    } else {
      extra := [0] + more;
      JoinMore(e, es, more);
    }
  }

  lemma JoinEmpty(extra: seq<nat>)
    requires |extra| == 1
    ensures Join([], extra) == Slashes(extra[0])
  {
  }

  lemma JoinLeading(es: seq<string>, extra: seq<nat>)
    requires |extra| == |es| + 1
    ensures Join(es, extra[0 := extra[0] + 1]) == "/" + Join(es, extra)
  {
    var more := extra[0 := extra[0] + 1];
    assert Slashes(extra[0] + 1) == "/" + Slashes(extra[0]);
    assert more[1..] == extra[1..];
  }

  lemma JoinOne(e: string, n: nat)
    ensures Join([e], [0, n]) == e + Slashes(n)
  {
    assert [0, n][1..] == [n] && [e][1..] == [];
    assert Join([], [n]) == Slashes(n);
    assert Slashes(0) + (e + ("" + Slashes(n))) == e + Slashes(n);
  }

  lemma JoinMore(e: string, es: seq<string>, extra: seq<nat>)
    requires es != [] && |extra| == |es| + 1
    ensures Join([e] + es, [0] + extra) == e + ("/" + Join(es, extra))
  {
    var all, more := [e] + es, [0] + extra;
    assert all[1..] == es && more[1..] == extra;
    assert Slashes(0) + (e + ("/" + Join(es, extra))) == e + ("/" + Join(es, extra));
  }
}
