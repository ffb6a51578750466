/** Attribute lookup in a `type; name="value"; ...` header, from src/contentdisposition.c. */
module ContentDisposition {
  import opened CStrings
  import opened QuotedString

  predicate IsSpace(c: char) {
    c == '\t' || c == ' ' || c == '\r' || c == '\n'
  }

  function DropSpace(s: string): (r: string)
    ensures |r| <= |s|
  {
    if s != "" && IsSpace(s[0]) then DropSpace(s[1..]) else s
  }

  /** One field of a header: its name, its value (empty without `=`), and the text behind it. */
  datatype Field = Field(name: string, value: string, rest: string)

  function ReadField(s: string): (f: Field)
    ensures |f.rest| <= |s|
  {
    var t := DropSpace(s);
    var name := ScanFrom(t, Outside, ";=");
    var u := t[name.consumed..];
    if u != "" && u[0] == '=' then
      var value := ScanFrom(u[1..], Outside, ";");
      Field(name.out, value.out, u[1..][value.consumed..])
    else
      Field(name.out, "", u)
  }

  /** The value of the first field whose name is a prefix of attrib: the comparison is bounded by the length of the
      field's name. */
  function Lookup(s: string, attrib: string): Option<string>
    decreases |s|
  {
    var f := ReadField(s);
    if f.name <= attrib then Some(f.value)
    else if f.rest == "" then None
    else Lookup(f.rest[1..], attrib)
  }

  method SkipSpace(hdr: string, pos: nat) returns (r: nat)
    requires pos <= |hdr|
    ensures pos <= r <= |hdr| && hdr[r..] == DropSpace(hdr[pos..])
  {
    r := pos;
    while r < |hdr| && IsSpace(hdr[r])
      invariant pos <= r <= |hdr|
      invariant DropSpace(hdr[r..]) == DropSpace(hdr[pos..])
    {
      assert hdr[r..][1..] == hdr[r + 1..];
      r := r + 1;
    }
  }

  lemma ReadFieldIs(s: string, t: string, name: Scan, u: string, value: Scan)
    requires t == DropSpace(s) && name == ScanFrom(t, Outside, ";=") && u == t[name.consumed..]
    requires u != "" && u[0] == '=' ==> value == ScanFrom(u[1..], Outside, ";")
    ensures ReadField(s) ==
      if u != "" && u[0] == '=' then Field(name.out, value.out, u[1..][value.consumed..]) else Field(name.out, "", u)
  {
    hide ScanFrom, DropSpace;
  }

  /** The body of the retry loop: reads one field and moves behind it. */
  method ReadFieldAt(hdr: string, start: nat) returns (name: string, value: string, pos: nat)
    requires start <= |hdr|
    ensures start <= pos <= |hdr|
    ensures ReadField(hdr[start..]) == Field(name, value, hdr[pos..])
  {
    hide ScanFrom, DropSpace, ReadField;
    pos := SkipSpace(hdr, start);
    name, value := "", "";
    var consumed;
    ghost var t := hdr[pos..];
    Rest(hdr, pos, 0);
    consumed, name := AppendQuoted(name, hdr[pos..], |hdr| - pos, ";=");
    Rest(hdr, pos, consumed);
    pos := pos + consumed;
    ghost var u := hdr[pos..];
    ghost var n := Scan(consumed, name);
    ghost var v := Scan(0, "");
    if pos < |hdr| && hdr[pos] == '=' {
      Rest(hdr, pos, 1);
      pos := pos + 1;
      Rest(hdr, pos, 0);
      consumed, value := AppendQuoted(value, hdr[pos..], |hdr| - pos, ";");
      Rest(hdr, pos, consumed);
      v := Scan(consumed, value);
      pos := pos + consumed;
    }
    ReadFieldIs(hdr[start..], t, n, u, v);
  }

  lemma Rest(s: string, p: nat, n: nat)
    requires p + n <= |s|
    ensures s[p..][n..] == s[p + n..] && s[p..][..|s| - p] == s[p..]
  {
  }

  method FindAttributeValue(hdr: string, attrib: string) returns (r: Option<string>)
    requires NUL !in hdr
    ensures r == Lookup(hdr, attrib)
  {
    hide ReadField;
    var pos := 0;
    assert hdr[0..] == hdr;
    while true
      invariant pos <= |hdr|
      invariant Lookup(hdr[pos..], attrib) == Lookup(hdr, attrib)
      decreases |hdr| - pos
    {
      var name, value;
      name, value, pos := ReadFieldAt(hdr, pos);
      var equal := StrNCmpEqual(attrib, name, |name|);
      if equal {
        return Some(value);
      }
      if pos == |hdr| {
        return None;
      }
      assert hdr[pos..][1..] == hdr[pos + 1..];
      pos := pos + 1;
    }
  }

  method GetName(hdr: string) returns (r: Option<string>)
    requires NUL !in hdr
    ensures r == Lookup(hdr, "name")
  {
    r := FindAttributeValue(hdr, "name");
  }

  method GetFilename(hdr: string) returns (r: Option<string>)
    requires NUL !in hdr
    ensures r == Lookup(hdr, "filename")
  {
    r := FindAttributeValue(hdr, "filename");
  }

  // Printing a header and looking an attribute up.

  datatype Param = Param(name: string, value: string)

  /** A name that a header can carry unquoted. */
  predicate IsName(name: string) {
    IsToken(name, ";=") && !IsSpace(name[0])
  }

  function PrintParams(params: seq<Param>): string {
    if params == [] then ""
    else "; " + params[0].name + "=" + Quote(params[0].value) + PrintParams(params[1..])
  }

  function Print(kind: string, params: seq<Param>): string {
    kind + PrintParams(params)
  }

  /** The value of the first parameter whose name is a prefix of attrib, as the scanner recovers it. */
  function FirstParam(params: seq<Param>, attrib: string): Option<string> {
    if params == [] then None
    else if params[0].name <= attrib then Some(Unquoted(params[0].value))
    else FirstParam(params[1..], attrib)
  }

  // Any way of writing the fields.

  ghost predicate AllSpace(s: string) {
    forall i | 0 <= i < |s| :: IsSpace(s[i])
  }

  lemma SpaceIs(c: char)
    ensures IsSpace(c) <==> c in "\t \r\n"
  {
  }

  /** raw is a way of writing the value: bare, up to a `;` or a NUL, or between quotes. */
  predicate WritesValue(raw: string, value: string) {
    || (raw == value && forall i | 0 <= i < |raw| :: raw[i] != '"' && !Stops(raw[i], ";"))
    || (|raw| >= 2 && raw[0] == '"' && raw[|raw| - 1] == '"' && Spells(raw[1..|raw| - 1], value))
  }

  /** A field as it is written: space, name, and the text behind `=` if there is one; and the value it stands for. */
  datatype Spelling = Spelling(space: string, name: string, raw: Option<string>, value: string)

  /** A name as it may stand in front of `=`, `;` or the end; it may be empty. */
  predicate IsFieldName(name: string) {
    name == "" || IsName(name)
  }

  ghost predicate IsSpelling(f: Spelling) {
    AllSpace(f.space) && IsFieldName(f.name) && if f.raw.None? then f.value == "" else WritesValue(f.raw.value, f.value)
  }

  function Assigned(f: Spelling): string {
    if f.raw.Some? then "=" + f.raw.value else ""
  }

  function Written(fs: seq<Spelling>): string {
    if fs == [] then ""
    else
      fs[0].space + (fs[0].name + (Assigned(fs[0]) + (if |fs| > 1 then ";" + Written(fs[1..]) else "")))
  }

  /** The value of the first field whose name is a prefix of attrib. */
  function FirstSpelling(fs: seq<Spelling>, attrib: string): Option<string> {
    if fs == [] then None
    else if fs[0].name <= attrib then Some(fs[0].value)
    else FirstSpelling(fs[1..], attrib)
  }

  lemma {:induction false} SpaceDropped(space: string, t: string)
    requires AllSpace(space) && (t != "" ==> !IsSpace(t[0]))
    ensures DropSpace(space + t) == t
  {
    if space == "" {
      assert space + t == t;
    } else {
      assert (space + t)[1..] == space[1..] + t;
      SpaceDropped(space[1..], t);
    }
  }

  lemma ScanValue(raw: string, value: string, rest: string)
    requires WritesValue(raw, value) && (rest == "" || rest[0] == ';')
    ensures ScanFrom(raw + rest, Outside, ";") == Scan(|raw|, value)
  {
    hide ScanFrom, Spells;
    if raw == value && forall i | 0 <= i < |raw| :: raw[i] != '"' && !Stops(raw[i], ";") {
      ScanToken(raw, rest, ";");
    } else {
      var e := raw[1..|raw| - 1];
      ScanBetweenQuotes(e, value, rest, ";");
      ScanEmpty(rest);
      BetweenQuotes(raw);
      EmitsNothing(value);
    }
  }

  lemma BetweenQuotes(raw: string)
    requires |raw| >= 2 && raw[0] == '"' && raw[|raw| - 1] == '"'
    ensures raw == ['"'] + raw[1..|raw| - 1] + ['"']
  {
  }

  lemma ScanEmpty(rest: string)
    requires rest == "" || rest[0] == ';'
    ensures ScanFrom(rest, Outside, ";") == Scan(0, "")
  {
  }

  lemma ReadSpelling(f: Spelling, rest: string)
    requires IsSpelling(f) && (rest == "" || rest[0] == ';')
    ensures ReadField(f.space + (f.name + (Assigned(f) + rest))) == Field(f.name, f.value, rest)
  {
    hide ScanFrom, ReadField, DropSpace, WritesValue;
    var u := Assigned(f) + rest;
    var t := f.name + u;
    SpaceDropped(f.space, t);
    ScanToken(f.name, u, ";=");
    assert t[|f.name|..] == u;
    if f.raw.Some? {
      var raw := f.raw.value;
      ScanValue(raw, f.value, rest);
      assert u[1..] == raw + rest && (raw + rest)[|raw|..] == rest;
      ReadFieldIs(f.space + t, t, Scan(|f.name|, f.name), u, Scan(|raw|, f.value));
    } else {
      assert u == rest;
      ReadFieldIs(f.space + t, t, Scan(|f.name|, f.name), u, Scan(0, ""));
    }
  }

  /** However the fields of a header are spaced and their values written, the lookup gives the value of the first field
      whose name is a prefix of the attribute. */
  lemma {:induction false} LookupWritten(fs: seq<Spelling>, attrib: string)
    requires fs != [] && forall f | f in fs :: IsSpelling(f)
    ensures Lookup(Written(fs), attrib) == FirstSpelling(fs, attrib)
  {
    hide ReadField, IsSpelling, Assigned;
    var rest := if |fs| > 1 then ";" + Written(fs[1..]) else "";
    ReadSpelling(fs[0], rest);
    if !(fs[0].name <= attrib) && |fs| > 1 {
      assert rest[1..] == Written(fs[1..]);
      LookupWritten(fs[1..], attrib);
    }
  }

  /** An empty field, such as the one behind a trailing `;`, has the empty name, a prefix of every attribute. */
  lemma EmptyFieldMatches(fs: seq<Spelling>, rest: seq<Spelling>, attrib: string)
    requires forall f | f in fs :: IsSpelling(f) && !(f.name <= attrib)
    requires forall f | f in rest :: IsSpelling(f)
    ensures Lookup(Written(fs + [Spelling("", "", None, "")] + rest), attrib) == Some("")
  {
    hide Lookup, Written, IsSpelling;
    var all := fs + [Spelling("", "", None, "")] + rest;
    EmptySpelling();
    LookupWritten(all, attrib);
    FirstEmpty(fs, rest, attrib);
  }

  lemma EmptySpelling()
    ensures IsSpelling(Spelling("", "", None, ""))
  {
  }

  lemma {:induction false} FirstEmpty(fs: seq<Spelling>, rest: seq<Spelling>, attrib: string)
    requires forall f | f in fs :: !(f.name <= attrib)
    ensures FirstSpelling(fs + [Spelling("", "", None, "")] + rest, attrib) == Some("")
  {
    if fs != [] {
      assert (fs + [Spelling("", "", None, "")] + rest)[1..] == fs[1..] + [Spelling("", "", None, "")] + rest;
      FirstEmpty(fs[1..], rest, attrib);
    }
  }

  /** The parameters of a printed header, as fields. */
  function Spellings(params: seq<Param>): (fs: seq<Spelling>)
    ensures |fs| == |params|
  {
    if params == [] then []
    else
      var p := params[0];
      [Spelling(" ", p.name, Some(Quote(p.value)), Unquoted(p.value))] + Spellings(params[1..])
  }

  lemma {:induction false} SpellingsAre(params: seq<Param>)
    requires forall p | p in params :: IsName(p.name)
    ensures forall f | f in Spellings(params) :: IsSpelling(f)
  {
    hide Quote, Unquoted, IsName, WritesValue;
    if params != [] {
      SpellingsAre(params[1..]);
      QuoteWrites(params[0].value);
    }
  }

  lemma {:induction false} SpellingsPrint(params: seq<Param>)
    ensures PrintParams(params) == if params == [] then "" else ";" + Written(Spellings(params))
  {
    hide Quote, Unquoted;
    if params != [] {
      SpellingsPrint(params[1..]);
      assert Spellings(params)[1..] == Spellings(params[1..]);
      ParamText(params[0].name, Quote(params[0].value), PrintParams(params[1..]));
    }
  }

  lemma {:induction false} FirstOfSpellings(params: seq<Param>, attrib: string)
    ensures FirstSpelling(Spellings(params), attrib) == FirstParam(params, attrib)
  {
    hide Quote, Unquoted;
    if params != [] {
      FirstOfSpellings(params[1..], attrib);
      assert Spellings(params)[1..] == Spellings(params[1..]);
    }
  }

  lemma ParamText(name: string, q: string, rest: string)
    ensures "; " + name + "=" + q + rest == ";" + (" " + (name + (("=" + q) + rest)))
  {
  }

  lemma QuoteWrites(v: string)
    ensures WritesValue(Quote(v), Unquoted(v))
  {
    hide Spells, EscapeAll, Unquoted;
    EscapeSpells(v);
    assert Quote(v)[1..|Quote(v)| - 1] == EscapeAll(v);
  }

  /** Looking up an attribute in a printed header gives the value of the first parameter that matches, with its quote
      characters gone, whatever the values contain. */
  lemma LookupPrinted(kind: string, params: seq<Param>, attrib: string)
    requires IsName(kind) && forall p | p in params :: IsName(p.name)
    ensures Lookup(Print(kind, params), attrib) ==
      if kind <= attrib then Some("") else FirstParam(params, attrib)
  {
    hide Lookup, PrintParams, Spellings, IsName;
    var fs := Spellings(params);
    var all := [Spelling("", kind, None, "")] + fs;
    SpellingsAre(params);
    SpellingsPrint(params);
    FirstOfSpellings(params, attrib);
    assert all[1..] == fs;
    KindWritten(kind, fs, PrintParams(params));
    LookupWritten(all, attrib);
  }

  lemma WrittenMore(f: Spelling, fs: seq<Spelling>)
    ensures Written([f] + fs) == f.space + (f.name + (Assigned(f) + if fs == [] then "" else ";" + Written(fs)))
  {
    assert ([f] + fs)[1..] == fs;
  }

  lemma KindWritten(kind: string, fs: seq<Spelling>, rest: string)
    requires rest == if fs == [] then "" else ";" + Written(fs)
    ensures Written([Spelling("", kind, None, "")] + fs) == kind + rest
  {
    hide Written;
    var first := Spelling("", kind, None, "");
    WrittenMore(first, fs);
    EmitsNothing(rest);
    EmitsNothing(kind + rest);
  }

  /** The lookup is exact for the first occurrence of an attribute when no earlier name is a prefix of it. */
  lemma {:induction false} FirstOccurrence(params: seq<Param>, attrib: string, i: nat)
    requires i < |params| && params[i].name == attrib && '"' !in params[i].value
    requires forall j | 0 <= j < i :: !(params[j].name <= attrib)
    ensures FirstParam(params, attrib) == Some(params[i].value)
  {
    if i == 0 {
      UnquotedIff(params[0].value);
    } else {
      FirstOccurrence(params[1..], attrib, i - 1);
    }
  }

  /** An earlier name that is a prefix of the attribute takes its place. */
  lemma {:induction false} EarlierParam(params: seq<Param>, attrib: string, i: nat) returns (k: nat)
    requires i <= |params| && exists j | 0 <= j < i :: params[j].name <= attrib
    ensures k < i && FirstParam(params, attrib) == Some(Unquoted(params[k].value))
  {
    if params[0].name <= attrib {
      k := 0;
    } else {
      var j :| 0 <= j < i && params[j].name <= attrib;
      assert params[1..][j - 1] == params[j];
      k := EarlierParam(params[1..], attrib, i - 1);
      k := k + 1;
    }
  }

  function Zip(names: seq<string>, values: seq<string>): (r: seq<Param>)
    requires |names| == |values|
    ensures |r| == |names| && forall i | 0 <= i < |r| :: r[i] == Param(names[i], values[i])
  {
    seq(|names|, i requires 0 <= i < |names| => Param(names[i], values[i]))
  }

  ghost predicate NoQuotes(values: seq<string>) {
    forall i | 0 <= i < |values| :: '"' !in values[i]
  }

  /** Looking the attribute up in a header printed from these values gives the i-th of them. */
  ghost predicate FindsValue(kind: string, names: seq<string>, values: seq<string>, attrib: string, i: nat)
    requires |names| == |values| && i < |values|
  {
    Lookup(Print(kind, Zip(names, values)), attrib) == Some(values[i])
  }

  /** The lookup finds an attribute at position i, whatever the quote-free values are, exactly when neither the kind of
      the header nor an earlier name is a prefix of the attribute. */
  lemma LookupExactIff(kind: string, names: seq<string>, attrib: string, i: nat)
    requires IsName(kind) && forall n | n in names :: IsName(n)
    requires i < |names| && names[i] == attrib
    ensures
      (forall values: seq<string> | |values| == |names| && NoQuotes(values)
         :: FindsValue(kind, names, values, attrib, i))
      <==> !(kind <= attrib) && forall j | 0 <= j < i :: !(names[j] <= attrib)
  {
    hide Lookup, Print, IsName;
    if !(kind <= attrib) && forall j | 0 <= j < i :: !(names[j] <= attrib) {
      forall values: seq<string> | |values| == |names| && NoQuotes(values)
        ensures FindsValue(kind, names, values, attrib, i)
      {
        LookupPrinted(kind, Zip(names, values), attrib);
        FirstOccurrence(Zip(names, values), attrib, i);
      }
    } else {
      var values := seq(|names|, j => if j == i then "y" else "x");
      LookupPrinted(kind, Zip(names, values), attrib);
      if !(kind <= attrib) {
        var j :| 0 <= j < i && names[j] <= attrib;
        assert Zip(names, values)[j].name == names[j];
        var k := EarlierParam(Zip(names, values), attrib, i);
        UnquotedIff("x");
        assert values[k] == "x";
      }
      assert !FindsValue(kind, names, values, attrib, i);
      assert NoQuotes(values);
    }
  }

  /** A field whose name is a proper prefix of the attribute shadows it. */
  lemma PrefixShadows()
    ensures Lookup(Print("form-data", [Param("file", "x"), Param("filename", "y")]), "filename") == Some("x")
  {
    var params := [Param("file", "x"), Param("filename", "y")];
    hide Lookup, Print;
    LookupPrinted("form-data", params, "filename");
    assert !("form-data" <= "filename") by { assert "form-data"[1] != "filename"[1]; }
    assert Unquoted("x") == "x";
  }
}
