/** The quoted-string scanner of src/quotedstringparser.c. */
module QuotedString {
  import opened CStrings

  datatype State = Outside | InQuotes | Escaped

  /** How many characters a scan consumed, and what it emitted. */
  datatype Scan = Scan(consumed: nat, out: string)

  predicate Stops(c: char, delims: string) {
    c != '"' && (c in delims || c == NUL)
  }

  /** The quote is tested before the escape state, so an escaped quote emits nothing and leaves the scanner inside the
      quotes. */
  function Next(state: State, c: char): State {
    if c == '"' then (if state == InQuotes then Outside else InQuotes)
    else if state == InQuotes && c == '\\' then Escaped
    else if state == Escaped then InQuotes
    else state
  }

  predicate Emits(state: State, c: char) {
    c != '"' && !(state == InQuotes && c == '\\')
  }

  /** The scanner on the text that is left. */
  function ScanFrom(s: string, state: State, delims: string): (r: Scan)
    ensures |r.out| <= r.consumed <= |s|
  {
    if s == "" || (state == Outside && Stops(s[0], delims)) then Scan(0, "")
    else
      var r := ScanFrom(s[1..], Next(state, s[0]), delims);
      Scan(1 + r.consumed, (if Emits(state, s[0]) then [s[0]] else "") + r.out)
  }

  /** The read-only scan over the delimiter string. */
  method Matches(c: char, candidates: string) returns (r: bool)
    ensures r <==> c in candidates
  {
    var i := 0;
    while i < |candidates|
      invariant i <= |candidates| && c !in candidates[..i]
    {
      if candidates[i] == c {
        return true;
      }
      i := i + 1;
    }
    return false;
  }

  lemma ScanAt(s: string, k: nat, state: State, delims: string)
    requires k < |s|
    ensures
      var r := ScanFrom(s[k + 1..], Next(state, s[k]), delims);
      ScanFrom(s[k..], state, delims) ==
      if state == Outside && Stops(s[k], delims) then Scan(0, "")
      else Scan(1 + r.consumed, (if Emits(state, s[k]) then [s[k]] else "") + r.out)
  {
    assert s[k..][1..] == s[k + 1..];
  }

  lemma ScanEnds(s: string, k: nat, state: State, delims: string)
    requires k <= |s|
    ensures k == |s| ==> ScanFrom(s[k..], state, delims) == Scan(0, "")
  {
  }

  /** The branches of the loop body: whether to stop, the next state, and whether c is appended. */
  method ScanChar(state: State, c: char, delims: string) returns (stop: bool, next: State, append: bool)
    ensures stop == (state == Outside && Stops(c, delims))
    ensures !stop ==> next == Next(state, c) && append == Emits(state, c)
  {
    stop, next, append := false, state, false;
    if c == '"' {
      if state == InQuotes {
        next := Outside;
      } else {
        next := InQuotes;
      }
    } else if state == InQuotes {
      if c == '\\' {
        next := Escaped;
      } else {
        append := true;
      }
    } else if state == Escaped {
      append := true;
      next := InQuotes;
    } else {
      var m := Matches(c, delims);
      if m || c == NUL {
        stop := true;
      } else {
        append := true;
      }
    }
  }

  method AppendQuoted(dynstring: string, buf: string, len: nat, delims: string) returns (count: nat, out: string)
    requires len <= |buf|
    ensures var r := ScanFrom(buf[..len], Outside, delims); count == r.consumed && out == dynstring + r.out
  {
    hide ScanFrom, Next, Emits, Stops;
    var state := Outside;
    count := 0;
    out := dynstring;
    ghost var s := buf[..len];
    ghost var all := ScanFrom(s, Outside, delims);
    assert s[0..] == s;
    while count < len
      invariant count <= len
      invariant var left := ScanFrom(s[count..], state, delims);
        count + left.consumed == all.consumed && out + left.out == dynstring + all.out
    {
      var c := buf[count];
      ScanAt(s, count, state, delims);
      var stop, next, append := ScanChar(state, c, delims);
      if stop {
        break;
      }
      state := next;
      count := count + 1;
      Regroup(out, [c], ScanFrom(s[count..], state, delims).out);
      if append {
        out := out + [c];
      }
    }
    ScanEnds(s, count, state, delims);
  }

  lemma Regroup(a: string, b: string, c: string)
    ensures a + (b + c) == a + b + c && a + ("" + c) == a + c
  {
  }

  // Where the scanner stops.

  /** The state in front of position k. */
  function StateAt(s: string, k: nat): State
    requires k <= |s|
  {
    if k == 0 then Outside else Next(StateAt(s, k - 1), s[k - 1])
  }

  /** A delimiter or NUL outside quotes. */
  predicate StopsAt(s: string, delims: string, k: nat)
    requires k < |s|
  {
    StateAt(s, k) == Outside && Stops(s[k], delims)
  }

  /** The scan ends at the first delimiter or NUL outside quotes, or at the end of the text. */
  lemma ScanStops(s: string, delims: string)
    ensures
      var n := ScanFrom(s, Outside, delims).consumed;
      (n < |s| ==> StopsAt(s, delims, n)) && forall k | 0 <= k < n :: !StopsAt(s, delims, k)
  {
    ScanStopsFrom(s, delims, 0);
    assert s[0..] == s;
  }

  lemma {:induction false} ScanStopsFrom(s: string, delims: string, k: nat)
    requires k <= |s|
    ensures
      var n := k + ScanFrom(s[k..], StateAt(s, k), delims).consumed;
      (n < |s| ==> StopsAt(s, delims, n)) && forall i | k <= i < n :: !StopsAt(s, delims, i)
    decreases |s| - k
  {
    if k < |s| && !StopsAt(s, delims, k) {
      assert s[k..][1..] == s[k + 1..];
      ScanStopsFrom(s, delims, k + 1);
    }
  }

  // Quoting and unquoting.

  function EscapeAll(v: string): string {
    if v == "" then ""
    else EscapeChar(v[0]) + EscapeAll(v[1..])
  }

  function EscapeChar(c: char): string {
    if c == '"' || c == '\\' then ['\\'] + [c] else [c]
  }

  /** The quoted form: quotes and backslashes inside are escaped. */
  function Quote(v: string): string {
    ['"'] + EscapeAll(v) + ['"']
  }

  /** v without its quote characters. */
  function Unquoted(v: string): string {
    if v == "" then ""
    else if v[0] == '"' then Unquoted(v[1..])
    else [v[0]] + Unquoted(v[1..])
  }

  /** e is text inside quotes that spells v: a character spells itself, and so does one behind a backslash, except that
      a quote behind a backslash spells nothing. */
  predicate Spells(e: string, v: string) {
    if e == "" then v == ""
    else if e[0] == '\\' then
      |e| >= 2 && if e[1] == '"' then Spells(e[2..], v) else v != "" && v[0] == e[1] && Spells(e[2..], v[1..])
    else e[0] != '"' && v != "" && v[0] == e[0] && Spells(e[1..], v[1..])
  }

  predicate IsUnit(c: string) {
    (|c| == 1 && c[0] != '"' && c[0] != '\\') || (|c| == 2 && c[0] == '\\')
  }

  /** What one character, or two with a backslash, spell. */
  function Spelled(c: string): string
    requires c != ""
  {
    if c[|c| - 1] == '"' then "" else [c[|c| - 1]]
  }

  lemma FirstUnit(e: string, v: string) returns (c: string, e': string, v': string)
    requires e != "" && Spells(e, v)
    ensures e == c + e' && |e'| < |e| && IsUnit(c) && Spells(e', v') && v == Spelled(c) + v'
  {
    var k := if e[0] == '\\' then 2 else 1;
    c, e' := e[..k], e[k..];
    v' := if c[k - 1] == '"' then v else v[1..];
  }

  /** Inside quotes, spelled text is emitted and the scan goes on inside the quotes. */
  lemma {:induction false} ScanSpelled(e: string, v: string, rest: string, delims: string)
    requires Spells(e, v)
    ensures
      var r := ScanFrom(rest, InQuotes, delims);
      ScanFrom(e + rest, InQuotes, delims) == Scan(|e| + r.consumed, v + r.out)
    decreases |e|
  {
    hide ScanFrom, IsUnit, Spelled;
    var out := ScanFrom(rest, InQuotes, delims).out;
    if e == "" {
      assert e + rest == rest && v + out == out;
    } else {
      hide Spells;
      var c, e', v' := FirstUnit(e, v);
      ScanSpelled(e', v', rest, delims);
      SpelledChar(c, e' + rest, delims);
      Regroup(c, e', rest);
      Regroup(Spelled(c), v', out);
    }
  }

  lemma SpelledChar(c: string, text: string, delims: string)
    requires IsUnit(c)
    ensures
      var r := ScanFrom(text, InQuotes, delims);
      ScanFrom(c + text, InQuotes, delims) == Scan(|c| + r.consumed, Spelled(c) + r.out)
  {
    hide ScanFrom;
    var r := ScanFrom(text, InQuotes, delims);
    Regroup("", "", r.out);
    if |c| == 2 {
      ScanStep(c[1], text, Escaped, delims);
      var r' := ScanFrom([c[1]] + text, Escaped, delims);
      ScanStep('\\', [c[1]] + text, InQuotes, delims);
      assert c + text == ['\\'] + ([c[1]] + text);
      assert "" + r'.out == r'.out;
    } else {
      ScanStep(c[0], text, InQuotes, delims);
      assert c + text == [c[0]] + text;
    }
  }

  lemma {:induction false} EscapeSpells(v: string)
    ensures Spells(EscapeAll(v), Unquoted(v))
  {
    if v != "" {
      EscapeSpells(v[1..]);
      var e := EscapeAll(v);
      var k := |EscapeChar(v[0])|;
      assert e[k..] == EscapeAll(v[1..]);
      assert v[0] != '"' ==> Unquoted(v)[1..] == Unquoted(v[1..]);
    }
  }

  lemma CloseQuote(rest: string, delims: string)
    ensures
      var r := ScanFrom(rest, Outside, delims);
      ScanFrom(['"'] + rest, InQuotes, delims) == Scan(1 + r.consumed, r.out)
  {
    hide ScanFrom;
    ScanStep('"', rest, InQuotes, delims);
    EmitsNothing(ScanFrom(rest, Outside, delims).out);
  }

  lemma OpenQuote(text: string, delims: string)
    ensures
      var r := ScanFrom(text, InQuotes, delims);
      ScanFrom(['"'] + text, Outside, delims) == Scan(1 + r.consumed, r.out)
  {
    hide ScanFrom;
    ScanStep('"', text, Outside, delims);
    EmitsNothing(ScanFrom(text, InQuotes, delims).out);
  }

  /** Any text between quotes that spells v is emitted as v, and the scan goes on behind the closing quote. */
  lemma ScanBetweenQuotes(e: string, v: string, rest: string, delims: string)
    requires Spells(e, v)
    ensures
      var r := ScanFrom(rest, Outside, delims);
      ScanFrom(['"'] + e + ['"'] + rest, Outside, delims) == Scan(|e| + 2 + r.consumed, v + r.out)
  {
    hide ScanFrom, Spells;
    var close := ['"'] + rest;
    CloseQuote(rest, delims);
    ScanSpelled(e, v, close, delims);
    OpenQuote(e + close, delims);
    QuotedText(['"'], e, ['"'], rest);
  }

  lemma QuotedText(a: string, e: string, b: string, rest: string)
    ensures a + e + b + rest == a + (e + (b + rest))
  {
  }

  lemma EmitsNothing(out: string)
    ensures "" + out == out && out + "" == out
  {
  }

  /** Without a closing quote, the scan takes everything, delimiters included. */
  lemma ScanOpenQuote(e: string, v: string, delims: string)
    requires Spells(e, v)
    ensures ScanFrom(['"'] + e, Outside, delims) == Scan(|e| + 1, v)
  {
    hide ScanFrom, Spells;
    ScanNothing(delims);
    ScanSpelled(e, v, "", delims);
    EmitsNothing(e);
    EmitsNothing(v);
    OpenQuote(e, delims);
  }

  lemma ScanNothing(delims: string)
    ensures ScanFrom("", InQuotes, delims) == Scan(0, "")
  {
  }

  lemma ScanStep(c: char, rest: string, state: State, delims: string)
    requires state != Outside || !Stops(c, delims)
    ensures
      var r := ScanFrom(rest, Next(state, c), delims);
      ScanFrom([c] + rest, state, delims) == Scan(1 + r.consumed, (if Emits(state, c) then [c] else "") + r.out)
  {
    assert ([c] + rest)[1..] == rest;
  }

  /** Scanning a quoted string emits it without its quote characters, and goes on behind it. */
  lemma ScanQuoted(v: string, rest: string, delims: string)
    ensures
      var r := ScanFrom(rest, Outside, delims);
      ScanFrom(Quote(v) + rest, Outside, delims) == Scan(|Quote(v)| + r.consumed, Unquoted(v) + r.out)
  {
    hide ScanFrom, EscapeAll, Spells;
    EscapeSpells(v);
    ScanBetweenQuotes(EscapeAll(v), Unquoted(v), rest, delims);
  }

  lemma {:induction false} UnquotedIff(v: string)
    ensures Unquoted(v) == v <==> '"' !in v
    ensures |Unquoted(v)| <= |v|
  {
    if v != "" {
      UnquotedIff(v[1..]);
      assert v == [v[0]] + v[1..];
      if v[0] != '"' && Unquoted(v) == v {
        assert Unquoted(v[1..]) == Unquoted(v)[1..];
      }
    }
  }

  /** A quoted string is recovered exactly when it holds no quote character. */
  lemma QuoteRoundTripIff(v: string, delims: string)
    ensures ScanFrom(Quote(v), Outside, delims) == Scan(|Quote(v)|, v) <==> '"' !in v
  {
    ScanQuoted(v, "", delims);
    assert Quote(v) + "" == Quote(v);
    assert Unquoted(v) + "" == Unquoted(v);
    UnquotedIff(v);
  }

  /** A value with a quote character that is not recovered. */
  lemma QuoteIsLost(delims: string)
    ensures ScanFrom(Quote("a\"b"), Outside, delims).out == "ab"
  {
    ScanQuoted("a\"b", "", delims);
    assert Quote("a\"b") + "" == Quote("a\"b");
    assert "a\"b"[1..] == "\"b" && "\"b"[1..] == "b";
    assert Unquoted("b") == "b" && Unquoted("\"b") == "b" && Unquoted("a\"b") == "ab";
  }

  /** Plain text up to a delimiter. */
  predicate IsToken(name: string, delims: string) {
    name != "" && forall i | 0 <= i < |name| :: name[i] != '"' && !Stops(name[i], delims)
  }

  /** Outside quotes, plain text is emitted and the scan goes on behind it. */
  lemma {:induction false} ScanBare(name: string, rest: string, delims: string)
    requires forall i | 0 <= i < |name| :: name[i] != '"' && !Stops(name[i], delims)
    ensures
      var r := ScanFrom(rest, Outside, delims);
      ScanFrom(name + rest, Outside, delims) == Scan(|name| + r.consumed, name + r.out)
  {
    hide ScanFrom;
    var out := ScanFrom(rest, Outside, delims).out;
    if name == "" {
      assert name + rest == rest && name + out == out;
    } else {
      ScanBare(name[1..], rest, delims);
      ScanStep(name[0], name[1..] + rest, Outside, delims);
      assert name + rest == [name[0]] + (name[1..] + rest);
      assert name + out == [name[0]] + (name[1..] + out);
    }
  }

  lemma ScanToken(name: string, rest: string, delims: string)
    requires forall i | 0 <= i < |name| :: name[i] != '"' && !Stops(name[i], delims)
    requires rest == "" || Stops(rest[0], delims)
    ensures ScanFrom(name + rest, Outside, delims) == Scan(|name|, name)
  {
    ScanBare(name, rest, delims);
    EmitsNothing(name);
  }
}
