/** The in-place cookie splitter of src/HTTPUtils.cpp, the routine that undoes it, and the two lookups. */
module Cookies {
  import opened CStrings

  /** An entry of the array that the parser returns; pointers are positions in the header buffer. */
  datatype Cookie = Cookie(name: Option<nat>, value: Option<nat>)

  const TERMINATOR := Cookie(None, None)

  /** Where a cookie lies in the text: its name, its `=`, and the `;` or the end of text behind its value. */
  datatype Slot = Slot(name: nat, eq: nat, end: nat)

  datatype Pair = Pair(name: string, value: string)

  predicate IsBlank(c: char) {
    c == ' ' || c == '\t' || c == '\n' || c == '\r'
  }

  function SkipBlanks(s: string, p: nat): (r: nat)
    requires p <= |s|
    ensures p <= r <= |s|
    decreases |s| - p
  {
    if p < |s| && IsBlank(s[p]) then SkipBlanks(s, p + 1) else p
  }

  /** The next cookie of the text from p on, if an `=` is left. */
  function NextSlot(s: string, p: nat): (r: Option<Slot>)
    requires p <= |s|
    ensures r.Some? ==> p <= r.value.name <= r.value.eq < r.value.end <= |s|
  {
    var name := SkipBlanks(s, p);
    var eq := IndexOf(s, '=', name);
    if eq == |s| then None else Some(Slot(name, eq, IndexOf(s, ';', eq + 1)))
  }

  /** The cookies of the text from p on. */
  function Slots(s: string, p: nat): seq<Slot>
    requires p <= |s|
    decreases |s| - p
  {
    match NextSlot(s, p)
    case None => []
    case Some(c) => [c] + if c.end == |s| then [] else Slots(s, c.end + 1)
  }

  function Semicolons(s: string, p: nat): nat
    requires p <= |s|
    decreases |s| - p
  {
    if p == |s| then 0 else (if s[p] == ';' then 1 else 0) + Semicolons(s, p + 1)
  }

  ghost predicate IsCut(slots: seq<Slot>, k: int) {
    exists i | 0 <= i < |slots| :: k == slots[i].eq || k == slots[i].end
  }

  /** The buffer with every delimiter of the slots overwritten. */
  ghost function Cleared(b: seq<char>, slots: seq<Slot>): (r: seq<char>)
    ensures |r| == |b|
  {
    seq(|b|, k requires 0 <= k < |b| => if IsCut(slots, k) then NUL else b[k])
  }

  predicate Fits(s: string, c: Slot) {
    && c.name <= c.eq < c.end <= |s|
    && s[c.eq] == '='
    && (c.end < |s| ==> s[c.end] == ';')
  }

  /** Slots lie in the text in order, without overlap. */
  ghost predicate Laid(s: string, slots: seq<Slot>) {
    && (forall i | 0 <= i < |slots| :: Fits(s, slots[i]))
    && (forall i, j | 0 <= i < j < |slots| :: slots[i].end < slots[j].name)
  }

  lemma SlotsStep(s: string, p: nat)
    requires p <= |s|
    ensures Slots(s, p) ==
      match NextSlot(s, p)
      case None => []
      case Some(c) => [c] + if c.end == |s| then [] else Slots(s, c.end + 1)
  {
    hide NextSlot;
  }

  lemma SlotsAt(s: string, p: nat, name: nat, eq: nat, end: nat)
    requires p <= |s| && name == SkipBlanks(s, p) && eq == IndexOf(s, '=', name)
    requires end == if eq < |s| then IndexOf(s, ';', eq + 1) else |s|
    ensures eq == |s| ==> Slots(s, p) == []
    ensures eq < |s| ==> p < |s|
    ensures eq < |s| ==> Slots(s, p) == [Slot(name, eq, end)] + (if end == |s| then [] else Slots(s, end + 1))
  {
    hide IndexOf, SkipBlanks, Slots;
    SlotsStep(s, p);
  }

  lemma {:induction false} SlotsLaid(s: string, p: nat)
    requires p <= |s|
    ensures Laid(s, Slots(s, p))
    ensures forall i | 0 <= i < |Slots(s, p)| :: p <= Slots(s, p)[i].name
    decreases |s| - p
  {
    hide IndexOf, SkipBlanks, Laid, Slots;
    var name := SkipBlanks(s, p);
    var eq := IndexOf(s, '=', name);
    var end := if eq < |s| then IndexOf(s, ';', eq + 1) else |s|;
    SlotsAt(s, p, name, eq, end);
    LaidNil(s);
    if eq < |s| {
      if end < |s| {
        SlotsLaid(s, end + 1);
      }
      LaidCons(s, Slot(name, eq, end), if end == |s| then [] else Slots(s, end + 1));
    }
  }

  lemma LaidNil(s: string)
    ensures Laid(s, [])
  {
  }

  lemma LaidCons(s: string, c: Slot, slots: seq<Slot>)
    requires Fits(s, c) && Laid(s, slots) && forall i | 0 <= i < |slots| :: c.end < slots[i].name
    ensures Laid(s, [c] + slots)
  {
  }

  // A reference that never looks at positions: names and values, by recursion on the text.

  function DropBlanks(s: string): (r: string)
    ensures |r| <= |s|
  {
    if s != "" && IsBlank(s[0]) then DropBlanks(s[1..]) else s
  }

  /** The first name and value of a text, and the text behind the `;` if there is one. */
  datatype First = First(pair: Pair, rest: Option<string>)

  function SplitFirst(s: string): (r: Option<First>)
    ensures r.Some? && r.value.rest.Some? ==> |r.value.rest.value| < |s|
  {
    var t := DropBlanks(s);
    var eq := IndexOf(t, '=', 0);
    if eq == |t| then None
    else
      var v := t[eq + 1..];
      var semi := IndexOf(v, ';', 0);
      Some(First(Pair(t[..eq], v[..semi]), if semi == |v| then None else Some(v[semi + 1..])))
  }

  function Split(s: string): seq<Pair>
    decreases |s|
  {
    match SplitFirst(s)
    case None => []
    case Some(f) => [f.pair] + if f.rest.None? then [] else Split(f.rest.value)
  }

  function Pairs(s: string, slots: seq<Slot>): (r: seq<Pair>)
    requires forall i | 0 <= i < |slots| :: Fits(s, slots[i])
    ensures |r| == |slots|
  {
    seq(|slots|, i requires 0 <= i < |slots| && Fits(s, slots[i]) =>
      Pair(s[slots[i].name..slots[i].eq], s[slots[i].eq + 1..slots[i].end]))
  }

  lemma {:induction false} SkipBlanksShift(s: string, p: nat)
    requires p <= |s|
    ensures DropBlanks(s[p..]) == s[SkipBlanks(s, p)..]
    decreases |s| - p
  {
    if p < |s| && IsBlank(s[p]) {
      assert s[p..][1..] == s[p + 1..];
      SkipBlanksShift(s, p + 1);
    }
  }

  lemma SplitFirstIs(s: string, t: string, eq: nat, v: string, semi: nat)
    requires t == DropBlanks(s) && eq == IndexOf(t, '=', 0)
    requires eq < |t| ==> v == t[eq + 1..] && semi == IndexOf(v, ';', 0)
    ensures SplitFirst(s) ==
      if eq == |t| then None
      else Some(First(Pair(t[..eq], v[..semi]), if semi == |v| then None else Some(v[semi + 1..])))
  {
    hide IndexOf, DropBlanks;
  }

  /** The reference splitter's step, in positions of the whole text. */
  lemma SplitFirstAt(s: string, p: nat, name: nat, eq: nat, end: nat)
    requires p <= |s| && name == SkipBlanks(s, p) && eq == IndexOf(s, '=', name)
    requires end == if eq < |s| then IndexOf(s, ';', eq + 1) else |s|
    ensures SplitFirst(s[p..]) ==
      if eq == |s| then None
      else Some(First(Pair(s[name..eq], s[eq + 1..end]), if end == |s| then None else Some(s[end + 1..])))
  {
    hide IndexOf, SkipBlanks, DropBlanks, SplitFirst;
    SkipBlanksShift(s, p);
    IndexOfShift(s, '=', name, 0);
    if eq < |s| {
      IndexOfShift(s, ';', eq + 1, 0);
      DropSlices(s, name, eq);
      DropSlices(s, eq + 1, end);
      SplitFirstIs(s[p..], s[name..], eq - name, s[eq + 1..], end - eq - 1);
    } else {
      SplitFirstIs(s[p..], s[name..], eq - name, "", 0);
    }
  }

  lemma DropSlices(s: string, p: nat, q: nat)
    requires p <= q <= |s|
    ensures s[p..][..q - p] == s[p..q]
    ensures q < |s| ==> s[p..][q - p + 1..] == s[q + 1..]
  {
  }

  lemma SplitAt(s: string, p: nat, name: nat, eq: nat, end: nat)
    requires p <= |s| && name == SkipBlanks(s, p) && eq == IndexOf(s, '=', name)
    requires end == if eq < |s| then IndexOf(s, ';', eq + 1) else |s|
    ensures eq == |s| ==> Split(s[p..]) == []
    ensures eq < |s| ==>
      Split(s[p..]) == [Pair(s[name..eq], s[eq + 1..end])] + (if end == |s| then [] else Split(s[end + 1..]))
  {
    hide IndexOf, SkipBlanks, SplitFirst;
    SplitFirstAt(s, p, name, eq, end);
  }

  /** The slots of the text hold the names and values that the reference splitter gives. */
  lemma {:induction false} SlotsSpell(s: string, p: nat)
    requires p <= |s|
    ensures forall i | 0 <= i < |Slots(s, p)| :: Fits(s, Slots(s, p)[i])
    ensures Pairs(s, Slots(s, p)) == Split(s[p..])
    decreases |s| - p
  {
    hide IndexOf, SkipBlanks, Split, Laid, Pairs, Slots;
    SlotsLaid(s, p);
    LaidFits(s, Slots(s, p));
    var name := SkipBlanks(s, p);
    var eq := IndexOf(s, '=', name);
    var end := if eq < |s| then IndexOf(s, ';', eq + 1) else |s|;
    SplitAt(s, p, name, eq, end);
    SlotsAt(s, p, name, eq, end);
    PairsNil(s);
    if eq < |s| {
      if end < |s| {
        SlotsSpell(s, end + 1);
      }
      PairsCons(s, Slot(name, eq, end), if end == |s| then [] else Slots(s, end + 1));
    }
  }

  lemma LaidFits(s: string, slots: seq<Slot>)
    requires Laid(s, slots)
    ensures forall i | 0 <= i < |slots| :: Fits(s, slots[i])
  {
  }

  lemma PairsCons(s: string, c: Slot, slots: seq<Slot>)
    requires Fits(s, c) && forall i | 0 <= i < |slots| :: Fits(s, slots[i])
    ensures Pairs(s, [c] + slots) == [Pair(s[c.name..c.eq], s[c.eq + 1..c.end])] + Pairs(s, slots)
  {
  }

  lemma PairsNil(s: string)
    ensures Pairs(s, []) == []
  {
  }

  lemma {:induction false} SemicolonsPast(s: string, p: nat, q: nat)
    requires p <= q <= |s|
    ensures Semicolons(s, q) <= Semicolons(s, p)
    ensures (exists k | p <= k < q :: s[k] == ';') ==> Semicolons(s, q) < Semicolons(s, p)
    decreases q - p
  {
    if p < q {
      SemicolonsPast(s, p + 1, q);
    }
  }

  // The two passes of the parser.

  method CountSegments(header: array<char>) returns (count: nat)
    requires Terminated(header[..], 0)
    ensures count == Semicolons(Text(header[..]), 0) + 1
  {
    ghost var s := Text(header[..]);
    count := 0;
    var p := 0;
    while true
      invariant p <= |s|
      invariant count + Semicolons(s, p) == Semicolons(s, 0)
      decreases |s| - p
    {
      count := count + 1;
      var sep := StrChr(header, p, ';', |s|);
      IndexOfFirst(s, ';', p);
      NoSemicolons(s, p, IndexOf(s, ';', p));
      if sep.None? {
        return;
      }
      p := sep.value + 1;
    }
  }

  lemma {:induction false} NoSemicolons(s: string, p: nat, q: nat)
    requires p <= q <= |s|
    requires forall k | p <= k < q :: s[k] != ';'
    ensures Semicolons(s, p) == Semicolons(s, q)
    decreases q - p
  {
    if p < q {
      NoSemicolons(s, p + 1, q);
    }
  }

  method SkipSpace(header: array<char>, p: nat, ghost s: string) returns (q: nat)
    requires p <= |s| < header.Length && header[|s|] == NUL
    requires forall k | p <= k < |s| :: header[k] == s[k]
    ensures q == SkipBlanks(s, p)
  {
    q := p;
    while IsBlank(header[q])
      invariant p <= q <= |s|
      invariant SkipBlanks(s, q) == SkipBlanks(s, p)
      decreases |s| - q
    {
      q := q + 1;
    }
  }

  /** What the entries say about the slots. */
  ghost predicate Records(cookies: seq<Cookie>, slots: seq<Slot>) {
    |slots| <= |cookies| &&
    forall i | 0 <= i < |slots| :: cookies[i] == Cookie(Some(slots[i].name), Some(slots[i].eq + 1))
  }

  /** The body of the second pass: one name and value. */
  method ParseOne(header: array<char>, cookies: array<Cookie>, idx: nat, p: nat, ghost s: string)
    returns (found: bool, next: nat)
    requires p <= |s| < header.Length && header[|s|] == NUL && NUL !in s && idx < cookies.Length
    requires forall k | p <= k < |s| :: header[k] == s[k]
    modifies header, cookies
    ensures
      var name := SkipBlanks(s, p);
      var eq := IndexOf(s, '=', name);
      var end := if eq < |s| then IndexOf(s, ';', eq + 1) else |s|;
      && found == (eq < |s|)
      && (!found ==> header[..] == old(header[..]))
      && (found ==>
           && next == (if end == |s| then |s| else end + 1)
           && header[..] == old(header[..])[eq := NUL][end := NUL]
           && cookies[idx] == Cookie(Some(name), Some(eq + 1)))
    ensures forall i | 0 <= i < cookies.Length && i != idx :: cookies[i] == old(cookies[i])
  {
    var name := SkipSpace(header, p, s);
    cookies[idx] := Cookie(Some(name), cookies[idx].value);
    assert forall k | p <= k < |s| :: s[k] in s;
    var eq := StrChr(header, name, '=', |s|);
    IndexOfSuffix(header[..|s|], s, '=', name);
    next := p;
    if eq.None? {
      return false, p;
    }
    header[eq.value] := NUL;
    var val := eq.value + 1;
    cookies[idx] := Cookie(cookies[idx].name, Some(val));
    var semi := StrChr(header, val, ';', |s|);
    IndexOfSuffix(header[..|s|], s, ';', val);
    if semi.Some? {
      header[semi.value] := NUL;
      next := semi.value + 1;
    } else {
      next := StrEnd(header, val, |s|);
    }
    found := true;
  }

  lemma ClearedMore(b: seq<char>, slots: seq<Slot>, c: Slot)
    requires c.eq < |b| && c.end < |b|
    ensures Cleared(b, slots)[c.eq := NUL][c.end := NUL] == Cleared(b, slots + [c])
  {
    var more := slots + [c];
    forall k | 0 <= k < |b|
      ensures IsCut(more, k) <==> IsCut(slots, k) || k == c.eq || k == c.end
    {
      if IsCut(slots, k) {
        var i :| 0 <= i < |slots| && (k == slots[i].eq || k == slots[i].end);
        assert more[i] == slots[i];
      }
      assert more[|slots|] == c;
    }
  }

  /** How far the second pass has come: the slots in front of p are recorded and cleared, and what lies behind p is
      untouched and worth at most as many entries as are left. */
  ghost predicate Parsed(b: seq<char>, s: string, p: nat, done: seq<Slot>, h: seq<char>, cookies: seq<Cookie>) {
    && p <= |s| && Slots(s, 0) == done + Slots(s, p)
    && h == Cleared(b, done) && (forall k | p <= k < |b| :: h[k] == b[k])
    && Records(cookies, done)
    && (|done| + Semicolons(s, p) <= Semicolons(s, 0) || (p == |s| && |done| <= Semicolons(s, 0) + 1))
  }

  lemma ParsedNext(b: seq<char>, s: string, p: nat, done: seq<Slot>, h: seq<char>, cookies: seq<Cookie>,
                   name: nat, eq: nat, end: nat, cookies': seq<Cookie>)
    requires |s| < |b| && b[|s|] == NUL && Parsed(b, s, p, done, h, cookies) && p < |s|
    requires name == SkipBlanks(s, p) && eq == IndexOf(s, '=', name) < |s| && end == IndexOf(s, ';', eq + 1)
    requires |done| < |cookies| == |cookies'| && cookies' == cookies[|done| := Cookie(Some(name), Some(eq + 1))]
    ensures
      var next := if end == |s| then |s| else end + 1;
      Parsed(b, s, next, done + [Slot(name, eq, end)], h[eq := NUL][end := NUL], cookies')
  {
    hide Slots, Cleared, IndexOf, SkipBlanks, Semicolons;
    var c := Slot(name, eq, end);
    var next := if end == |s| then |s| else end + 1;
    SlotsAt(s, p, name, eq, end);
    NoSlots(s);
    SemicolonsPast(s, p, next);
    ClearedMore(b, done, c);
    assert Slots(s, 0) == done + [c] + Slots(s, next);
    assert end < |s| ==> s[end] == ';';
    var h' := h[eq := NUL][end := NUL];
    assert |h| == |b|;
    assert forall k | next <= k < |b| :: h'[k] == b[k];
    assert Records(cookies', done + [c]);
  }

  lemma ParsedText(b: seq<char>, s: string, p: nat, done: seq<Slot>, h: seq<char>, cookies: seq<Cookie>)
    requires |s| < |b| && s == b[..|s|] && b[|s|] == NUL && NUL !in s && Parsed(b, s, p, done, h, cookies)
    ensures |h| == |b| && p <= |s| && h[|s|] == NUL && (forall k | p <= k < |s| :: h[k] == s[k])
    ensures h[p] == NUL <==> p == |s|
  {
    hide Slots, Cleared, Semicolons;
    assert p < |s| ==> s[p] in s;
  }

  /** The pass can stop when the text is used up, when the entries are, or when no `=` is left. */
  lemma ParsedAll(b: seq<char>, s: string, p: nat, done: seq<Slot>, h: seq<char>, cookies: seq<Cookie>)
    requires Parsed(b, s, p, done, h, cookies)
    requires p == |s| || |done| > Semicolons(s, 0) || IndexOf(s, '=', SkipBlanks(s, p)) == |s|
    ensures done == Slots(s, 0) && |done| <= Semicolons(s, 0) + 1
  {
    hide Slots, Cleared, IndexOf, SkipBlanks, Semicolons;
    NoSlots(s);
    if IndexOf(s, '=', SkipBlanks(s, p)) == |s| {
      SlotsAt(s, p, SkipBlanks(s, p), |s|, |s|);
    }
    assert Slots(s, p) == [];
  }

  method ParseCookies(header: array?<char>) returns (cookies: array?<Cookie>)
    requires header != null ==> Terminated(header[..], 0)
    modifies header
    ensures header == null <==> cookies == null
    ensures header != null ==>
      var b := old(header[..]);
      var s := Text(b);
      var slots := Slots(s, 0);
      && fresh(cookies)
      && cookies.Length == Semicolons(s, 0) + 2
      && |slots| < cookies.Length
      && Records(cookies[..], slots)
      && cookies[|slots|] == TERMINATOR
      && header[..] == Cleared(b, slots)
  {
    hide Slots, Cleared, IndexOf, SkipBlanks, Semicolons, Parsed, Terminated;
    if header == null {
      return null;
    }
    ghost var b := header[..];
    ghost var s := Text(b);
    var count := CountSegments(header);
    cookies := new Cookie[count + 1];
    var idx := 0;
    var p := 0;
    ghost var done: seq<Slot> := [];
    ParsedNone(b, s, cookies[..]);
    ParsedText(b, s, p, done, header[..], cookies[..]);
    while header[p] != NUL && idx < count
      invariant 0 <= p <= |s| && idx == |done| && header[..][p] == header[p]
      invariant Parsed(b, s, p, done, header[..], cookies[..])
      decreases |s| - p
    {
      ParsedText(b, s, p, done, header[..], cookies[..]);
      ghost var h, before := header[..], cookies[..];
      ghost var name := SkipBlanks(s, p);
      ghost var eq := IndexOf(s, '=', name);
      assert forall k | p <= k < |s| :: header[k] == header[..][k];
      var found, next := ParseOne(header, cookies, idx, p, s);
      if !found {
        cookies[idx] := TERMINATOR;
        ParsedAll(b, s, p, done, h, before);
        ParsedEnds(b, s, p, done, h, before, cookies[..]);
        return;
      }
      ghost var end := IndexOf(s, ';', eq + 1);
      assert cookies[..] == before[idx := Cookie(Some(name), Some(eq + 1))];
      ParsedNext(b, s, p, done, h, before, name, eq, end, cookies[..]);
      done := done + [Slot(name, eq, end)];
      p := next;
      idx := idx + 1;
      ParsedText(b, s, p, done, header[..], cookies[..]);
    }
    ParsedText(b, s, p, done, header[..], cookies[..]);
    ghost var before := cookies[..];
    ParsedAll(b, s, p, done, header[..], before);
    cookies[idx] := TERMINATOR;
    ParsedEnds(b, s, p, done, header[..], before, cookies[..]);
  }

  lemma ParsedNone(b: seq<char>, s: string, cookies: seq<Cookie>)
    ensures Parsed(b, s, 0, [], b, cookies)
  {
    hide Slots, Semicolons;
    ClearedNone(b);
    assert [] + Slots(s, 0) == Slots(s, 0);
  }

  lemma ParsedEnds(b: seq<char>, s: string, p: nat, done: seq<Slot>, h: seq<char>,
                   before: seq<Cookie>, after: seq<Cookie>)
    requires Parsed(b, s, p, done, h, before) && |done| < |before| == |after|
    requires forall i | 0 <= i < |before| && i != |done| :: after[i] == before[i]
    ensures h == Cleared(b, done) && Records(after, done)
  {
    hide Slots, Semicolons, Cleared;
  }

  lemma ClearedNone(b: seq<char>)
    ensures Cleared(b, []) == b
  {
  }

  lemma NoSlots(s: string)
    ensures Slots(s, |s|) == []
  {
  }

  // What the entries denote.

  lemma NotCutInside(s: string, slots: seq<Slot>, i: nat, k: nat)
    requires Laid(s, slots) && i < |slots|
    requires slots[i].name <= k < slots[i].end && k != slots[i].eq
    ensures !IsCut(slots, k)
  {
    forall j | 0 <= j < |slots|
      ensures k != slots[j].eq && k != slots[j].end
    {
      assert Fits(s, slots[j]) && Fits(s, slots[i]);
    }
  }

  /** Each entry's pointers denote the name and the value of the reference splitter. */
  lemma EntriesDenote(b: seq<char>, i: nat)
    requires Terminated(b, 0) && i < |Slots(Text(b), 0)|
    ensures
      var c := Slots(Text(b), 0)[i];
      && c.name <= |b| && c.eq + 1 <= |b| && i < |Split(Text(b))|
      && Split(Text(b))[i] == Pair(StringAt(Cleared(b, Slots(Text(b), 0)), c.name),
                                   StringAt(Cleared(b, Slots(Text(b), 0)), c.eq + 1))
  {
    hide Slots, Split, StringAt, Laid;
    var s := Text(b);
    var slots := Slots(s, 0);
    var c := slots[i];
    SlotsLaid(s, 0);
    LaidFits(s, slots);
    var cleared := Cleared(b, slots);
    assert IsCut(slots, c.eq) && IsCut(slots, c.end);
    forall k | c.name <= k < c.end && k != c.eq
      ensures cleared[k] == s[k] && s[k] != NUL
    {
      NotCutInside(s, slots, i, k);
      assert s[k] in s;
    }
    StringAtIs(cleared, c.name, c.eq);
    StringAtIs(cleared, c.eq + 1, c.end);
    assert cleared[c.name..c.eq] == s[c.name..c.eq];
    assert cleared[c.eq + 1..c.end] == s[c.eq + 1..c.end];
    SlotsSpell(s, 0);
    assert s[0..] == s;
  }

  // Undoing the parser.

  /** The buffer that restoring leaves: the original, except for the position behind the last value. */
  function Restored(b: seq<char>): seq<char>
    requires Terminated(b, 0)
  {
    var slots := Slots(Text(b), 0);
    if slots == [] || slots[|slots| - 1].end >= |b| then b else b[slots[|slots| - 1].end := NUL]
  }

  /** The buffer while slot i is the next one to restore. */
  ghost function Restoring(b: seq<char>, slots: seq<Slot>, i: nat): (r: seq<char>)
    requires slots != [] && i <= |slots| && slots[|slots| - 1].end < |b|
    ensures |r| == |b|
  {
    Cleared(b, slots[i..])[slots[|slots| - 1].end := NUL]
  }

  lemma CutFirstSlot(slots: seq<Slot>, i: nat, k: int)
    requires i < |slots|
    ensures IsCut(slots[i..], k) <==> IsCut(slots[i + 1..], k) || k == slots[i].eq || k == slots[i].end
  {
    var rest, tail := slots[i..], slots[i + 1..];
    assert rest[0] == slots[i];
    if IsCut(tail, k) {
      var j :| 0 <= j < |tail| && (k == tail[j].eq || k == tail[j].end);
      assert rest[j + 1] == tail[j];
    }
    if IsCut(rest, k) {
      var j :| 0 <= j < |rest| && (k == rest[j].eq || k == rest[j].end);
      assert j > 0 ==> tail[j - 1] == rest[j];
    }
  }

  lemma CutsBehind(s: string, slots: seq<Slot>, i: nat, k: int)
    requires Laid(s, slots) && i < |slots| && IsCut(slots[i + 1..], k)
    ensures k > slots[i].end
  {
    var tail := slots[i + 1..];
    var j :| 0 <= j < |tail| && (k == tail[j].eq || k == tail[j].end);
    assert tail[j] == slots[i + 1 + j] && Fits(s, slots[i + 1 + j]);
  }

  lemma RestoringStep(b: seq<char>, s: string, slots: seq<Slot>, i: nat)
    requires |s| < |b| && s == b[..|s|] && b[|s|] == NUL && NUL !in s && Laid(s, slots) && i < |slots|
    requires slots[|slots| - 1].end < |b|
    ensures
      var c := slots[i];
      var h := Restoring(b, slots, i);
      && c.eq < c.end < |b|
      && (forall k | c.eq < k < c.end :: h[k] != NUL) && h[c.end] == NUL
      && Restoring(b, slots, i + 1) == if i + 1 < |slots| then h[c.eq := '='][c.end := ';'] else h[c.eq := '=']
  {
    var c, last := slots[i], slots[|slots| - 1].end;
    assert Fits(s, c) && (i + 1 < |slots| ==> c.end < last) && c.end <= last;
    hide Laid, IsCut;
    forall k | 0 <= k < |b|
      ensures IsCut(slots[i..], k) <==> IsCut(slots[i + 1..], k) || k == c.eq || k == c.end
      ensures IsCut(slots[i + 1..], k) ==> k > c.end
    {
      CutFirstSlot(slots, i, k);
      if IsCut(slots[i + 1..], k) {
        CutsBehind(s, slots, i, k);
      }
    }
    forall k | c.eq < k < c.end
      ensures b[k] != NUL
    {
      assert s[k] in s && b[k] == s[k];
    }
  }

  method RestoreCookies(header: array<char>, cookies: array<Cookie>, ghost b: seq<char>)
    requires Terminated(b, 0)
    requires var slots := Slots(Text(b), 0);
      && |slots| < cookies.Length && Records(cookies[..], slots) && cookies[|slots|] == TERMINATOR
      && header[..] == Cleared(b, slots)
    modifies header
    ensures header[..] == Restored(b)
  {
    hide Slots, Restoring, Cleared, Laid, Text, Terminated;
    ghost var s := Text(b);
    ghost var slots := Slots(s, 0);
    SlotsLaid(s, 0);
    LaidFits(s, slots);
    assert slots != [] ==> Fits(s, slots[|slots| - 1]);
    RestoringEnds(b, slots);
    var i := 0;
    while cookies[i].name.Some?
      invariant i <= |slots| && Records(cookies[..], slots) && cookies[|slots|] == TERMINATOR
      invariant slots != [] ==> header[..] == Restoring(b, slots, i)
      invariant slots == [] ==> header[..] == b
      decreases |slots| - i
    {
      assert cookies[..][i] == cookies[i] && Fits(s, slots[i]);
      RestoringStep(b, s, slots, i);
      var value := cookies[i].value.value;
      header[value - 1] := '=';
      var end := StrEnd(header, value, slots[i].end);
      assert i + 1 < |slots| ==> cookies[..][i + 1] == cookies[i + 1];
      if cookies[i + 1].name.Some? {
        header[end] := ';';
      }
      i := i + 1;
    }
    assert i == |slots|;
  }

  lemma RestoringEnds(b: seq<char>, slots: seq<Slot>)
    requires slots != [] ==> slots[|slots| - 1].end < |b|
    ensures Cleared(b, []) == b
    ensures slots != [] ==> Restoring(b, slots, 0) == Cleared(b, slots)
    ensures slots != [] ==> Restoring(b, slots, |slots|) == b[slots[|slots| - 1].end := NUL]
  {
    if slots != [] {
      assert IsCut(slots, slots[|slots| - 1].end);
      assert slots[0..] == slots;
    }
  }

  /** Parsing and restoring, one after the other. */
  method ParseAndRestore(header: array<char>)
    requires Terminated(header[..], 0)
    modifies header
    ensures header[..] == Restored(old(header[..]))
  {
    hide Slots, Cleared, Restored;
    ghost var b := header[..];
    var cookies := ParseCookies(header);
    RestoreCookies(header, cookies, b);
  }

  /** Some `;` stands behind the last `=` of the text. */
  ghost predicate SemicolonBehindLastEquals(s: string) {
    exists k | 0 <= k < |s| && s[k] == ';' ::
      (exists j | 0 <= j < k :: s[j] == '=') && (forall j | k < j < |s| :: s[j] != '=')
  }

  lemma {:induction false} BlanksSkipped(s: string, p: nat)
    requires p <= |s|
    ensures forall k | p <= k < SkipBlanks(s, p) :: IsBlank(s[k])
    decreases |s| - p
  {
    if p < |s| && IsBlank(s[p]) {
      BlanksSkipped(s, p + 1);
    }
  }

  /** There is no `=` behind the last slot, and no `;` inside its value. */
  lemma {:induction false} LastSlot(s: string, p: nat)
    requires p <= |s|
    ensures Slots(s, p) == [] ==> forall k | p <= k < |s| :: s[k] != '='
    ensures Slots(s, p) != [] ==>
      var c := Slots(s, p)[|Slots(s, p)| - 1];
      && Fits(s, c)
      && (forall k | c.end <= k < |s| :: s[k] != '=')
      && (forall k | c.eq <= k < c.end :: s[k] != ';')
    decreases |s| - p
  {
    hide Slots, SkipBlanks, IndexOf;
    var name := SkipBlanks(s, p);
    var eq := IndexOf(s, '=', name);
    var end := if eq < |s| then IndexOf(s, ';', eq + 1) else |s|;
    SlotsAt(s, p, name, eq, end);
    BlanksSkipped(s, p);
    IndexOfFirst(s, '=', name);
    if eq < |s| {
      IndexOfFirst(s, ';', eq + 1);
      if end < |s| {
        LastSlot(s, end + 1);
      }
    }
  }

  /** Restoring gives the original buffer back exactly when no `;` stands behind the last `=`. */
  lemma RestoredExactIff(b: seq<char>)
    requires Terminated(b, 0)
    ensures Restored(b) == b <==> !SemicolonBehindLastEquals(Text(b))
  {
    hide Slots, Terminated;
    var s := Text(b);
    var slots := Slots(s, 0);
    LastSlot(s, 0);
    if slots != [] {
      var c := slots[|slots| - 1];
      if c.end < |s| {
        assert s[c.end] == ';' && s[c.eq] == '=';
        assert b[c.end] == s[c.end] && Restored(b)[c.end] == NUL;
      } else {
        assert b[c.end := NUL] == b;
        assert s[c.eq] == '=';
      }
    }
  }

  /** A header that ends in a semicolon, like the second one of testsrc/httputils_tests.cpp, loses it. */
  lemma TrailingSemicolonIsLost()
    ensures var b := ['a', '=', '1', ';', NUL]; Terminated(b, 0) && Restored(b) != b
  {
    var b := ['a', '=', '1', ';', NUL];
    assert b[4] == NUL;
    assert Text(b) == "a=1;";
    assert Text(b)[3] == ';' && Text(b)[1] == '=';
    RestoredExactIff(b);
  }

  // Looking cookies up.

  /** The entries denote these names and values, and a terminator follows them. */
  ghost predicate Denotes(header: seq<char>, cookies: seq<Cookie>, pairs: seq<Pair>) {
    && |pairs| < |cookies|
    && cookies[|pairs|] == TERMINATOR
    && forall i | 0 <= i < |pairs| ::
         && cookies[i].name.Some? && cookies[i].name.value <= |header|
         && cookies[i].value.Some? && cookies[i].value.value <= |header|
         && pairs[i] == Pair(StringAt(header, cookies[i].name.value), StringAt(header, cookies[i].value.value))
  }

  /** What the parser returns denotes what the reference splitter gives. */
  lemma ParsedDenotes(b: seq<char>, cookies: seq<Cookie>)
    requires Terminated(b, 0)
    requires var slots := Slots(Text(b), 0);
      |slots| < |cookies| && Records(cookies, slots) && cookies[|slots|] == TERMINATOR
    ensures Denotes(Cleared(b, Slots(Text(b), 0)), cookies, Split(Text(b)))
  {
    hide Slots, Split, Cleared, StringAt;
    var s := Text(b);
    SlotsSpell(s, 0);
    assert s[0..] == s;
    forall i | 0 <= i < |Slots(s, 0)|
      ensures i < |Split(s)|
      ensures var c := Slots(s, 0)[i];
        && c.name <= |b| && c.eq + 1 <= |b|
        && Split(s)[i] == Pair(StringAt(Cleared(b, Slots(s, 0)), c.name), StringAt(Cleared(b, Slots(s, 0)), c.eq + 1))
    {
      EntriesDenote(b, i);
    }
  }

  function FirstValue(pairs: seq<Pair>, name: string): Option<string> {
    if pairs == [] then None
    else if pairs[0].name == name then Some(pairs[0].value)
    else FirstValue(pairs[1..], name)
  }

  function LastValue(pairs: seq<Pair>, name: string): Option<string> {
    if pairs == [] then None
    else if pairs[|pairs| - 1].name == name then Some(pairs[|pairs| - 1].value)
    else LastValue(pairs[..|pairs| - 1], name)
  }

  /** The lookup by name.  A match with idx > 0 counts idx down without moving on, so every idx finds the first
      match. */
  method GetCookie(header: array<char>, cookies: array?<Cookie>, name: string, idx: nat, ghost pairs: seq<Pair>)
    returns (r: Option<nat>)
    requires cookies != null ==> Denotes(header[..], cookies[..], pairs)
    ensures cookies == null ==> r == None
    ensures cookies != null ==>
      match FirstValue(pairs, name)
      case None => r == None
      case Some(v) => r.Some? && r.value <= header.Length && StringAt(header[..], r.value) == v
  {
    if cookies == null {
      return None;
    }
    var i, n := 0, idx;
    assert pairs[0..] == pairs;
    while cookies[i].name.Some? && cookies[i].value.Some?
      invariant i <= |pairs|
      invariant FirstValue(pairs[i..], name) == FirstValue(pairs, name)
      decreases |pairs| - i, n
    {
      assert cookies[..][i] == cookies[i] && i < |pairs|;
      if StringAt(header[..], cookies[i].name.value) == name {
        if n > 0 {
          n := n - 1;
          continue;
        }
        return cookies[i].value;
      }
      assert pairs[i..][1..] == pairs[i + 1..];
      i := i + 1;
    }
    assert i == |pairs|;
    return None;
  }

  lemma LastOfNone(name: string)
    ensures LastValue([], name) == None
  {
  }

  lemma LastOfMore(pairs: seq<Pair>, i: nat, name: string)
    requires i < |pairs|
    ensures LastValue(pairs[..i + 1], name) ==
      if pairs[i].name == name then Some(pairs[i].value) else LastValue(pairs[..i], name)
  {
    assert pairs[..i + 1][..i] == pairs[..i];
  }

  /** The scan for the session token keeps the last match, and the empty string when there is none. */
  method TokenFromCookies(header: array<char>, cookies: array?<Cookie>, ghost pairs: seq<Pair>) returns (token: string)
    requires cookies != null ==> Denotes(header[..], cookies[..], pairs)
    ensures cookies == null ==> token == ""
    ensures cookies != null ==>
      token == match LastValue(pairs, "auth") case None => "" case Some(v) => v
  {
    hide StringAt, LastValue;
    token := "";
    if cookies != null {
      var i := 0;
      LastOfNone("auth");
      while cookies[i].name.Some?
        invariant i <= |pairs|
        invariant token == match LastValue(pairs[..i], "auth") case None => "" case Some(v) => v
        decreases |pairs| - i
      {
        assert cookies[..][i] == cookies[i] && i < |pairs|;
        LastOfMore(pairs, i, "auth");
        if StringAt(header[..], cookies[i].name.value) == "auth" {
          token := StringAt(header[..], cookies[i].value.value);
        }
        i := i + 1;
      }
      assert i == |pairs|;
      assert pairs[..i] == pairs;
    }
  }

  /** The idx-th match, which the lookup's idx asks for. */
  function Nth(pairs: seq<Pair>, name: string, idx: nat): Option<string> {
    if pairs == [] then None
    else if pairs[0].name != name then Nth(pairs[1..], name, idx)
    else if idx == 0 then Some(pairs[0].value)
    else Nth(pairs[1..], name, idx - 1)
  }

  /** The values of a name, in order. */
  function ValuesOf(pairs: seq<Pair>, name: string): seq<string> {
    if pairs == [] then []
    else (if pairs[0].name == name then [pairs[0].value] else []) + ValuesOf(pairs[1..], name)
  }

  lemma {:induction false} NthIs(pairs: seq<Pair>, name: string, idx: nat)
    ensures var vs := ValuesOf(pairs, name); Nth(pairs, name, idx) == if idx < |vs| then Some(vs[idx]) else None
  {
    if pairs != [] {
      NthIs(pairs[1..], name, idx);
      if idx > 0 {
        NthIs(pairs[1..], name, idx - 1);
      }
    }
  }

  lemma {:induction false} ValuesOfMore(pairs: seq<Pair>, last: Pair, name: string)
    ensures ValuesOf(pairs + [last], name) == ValuesOf(pairs, name) + if last.name == name then [last.value] else []
  {
    if pairs != [] {
      assert (pairs + [last])[1..] == pairs[1..] + [last];
      ValuesOfMore(pairs[1..], last, name);
    }
  }

  /** The two lookups give the first and the last value of the name, empty or not. */
  lemma {:induction false} LookupsAre(pairs: seq<Pair>, name: string)
    ensures
      var vs := ValuesOf(pairs, name);
      && FirstValue(pairs, name) == (if vs == [] then None else Some(vs[0]))
      && LastValue(pairs, name) == (if vs == [] then None else Some(vs[|vs| - 1]))
  {
    FirstIsNth(pairs, name);
    NthIs(pairs, name, 0);
    if pairs != [] {
      var init, last := pairs[..|pairs| - 1], pairs[|pairs| - 1];
      LookupsAre(init, name);
      assert pairs == init + [last];
      ValuesOfMore(init, last, name);
    }
  }

  lemma {:induction false} FirstIsNth(pairs: seq<Pair>, name: string)
    ensures FirstValue(pairs, name) == Nth(pairs, name, 0)
  {
    if pairs != [] {
      FirstIsNth(pairs[1..], name);
    }
  }

  /** On one header, the lookup gives the idx-th match exactly when the name is absent, or its idx-th value exists and
      equals its first one. */
  lemma IdxMetIff(pairs: seq<Pair>, name: string, idx: nat)
    ensures
      var vs := ValuesOf(pairs, name);
      FirstValue(pairs, name) == Nth(pairs, name, idx) <==> vs == [] || (idx < |vs| && vs[idx] == vs[0])
  {
    FirstIsNth(pairs, name);
    NthIs(pairs, name, 0);
    NthIs(pairs, name, idx);
  }

  function Zip(names: seq<string>, values: seq<string>): (r: seq<Pair>)
    requires |names| == |values|
    ensures |r| == |names| && forall i | 0 <= i < |r| :: r[i] == Pair(names[i], values[i])
  {
    seq(|names|, i requires 0 <= i < |names| => Pair(names[i], values[i]))
  }

  ghost predicate GivesIdx(names: seq<string>, values: seq<string>, name: string, idx: nat) {
    |names| == |values| ==> FirstValue(Zip(names, values), name) == Nth(Zip(names, values), name, idx)
  }

  /** For given names, the lookup gives the idx-th match whatever the values are exactly when idx is zero or the name is
      absent. */
  lemma IdxMetAlwaysIff(names: seq<string>, name: string, idx: nat)
    ensures (forall values: seq<string> :: GivesIdx(names, values, name, idx)) <==> idx == 0 || name !in names
  {
    if idx == 0 {
      forall values: seq<string> | |values| == |names| {
        FirstIsNth(Zip(names, values), name);
      }
    } else if name !in names {
      forall values: seq<string> | |values| == |names|
        ensures GivesIdx(names, values, name, idx)
      {
        NoneFound(Zip(names, values), name);
        NoneNth(Zip(names, values), name, idx);
      }
    } else {
      var i := IndexOfName(names, name);
      var values := seq(|names|, j => if j == i then "y" else "x");
      var pairs := Zip(names, values);
      FirstFound(pairs, name, i);
      LaterNth(pairs, name, i, idx);
      assert !GivesIdx(names, values, name, idx);
    }
  }

  lemma {:induction false} NoneNth(pairs: seq<Pair>, name: string, idx: nat)
    requires forall i | 0 <= i < |pairs| :: pairs[i].name != name
    ensures Nth(pairs, name, idx) == None
  {
    if pairs != [] {
      NoneNth(pairs[1..], name, idx);
    }
  }

  /** The first position of a name. */
  lemma IndexOfName(names: seq<string>, name: string) returns (i: nat)
    requires name in names
    ensures i < |names| && names[i] == name && forall j | 0 <= j < i :: names[j] != name
  {
    i := 0;
    while names[i] != name
      invariant i < |names| && name in names[i..] && forall j | 0 <= j < i :: names[j] != name
      decreases |names| - i
    {
      i := i + 1;
    }
  }

  lemma {:induction false} FirstFound(pairs: seq<Pair>, name: string, i: nat)
    requires i < |pairs| && pairs[i].name == name && forall j | 0 <= j < i :: pairs[j].name != name
    ensures FirstValue(pairs, name) == Some(pairs[i].value)
  {
    if i > 0 {
      FirstFound(pairs[1..], name, i - 1);
    }
  }

  /** Beyond the first match, every match is one of the later pairs. */
  lemma {:induction false} LaterNth(pairs: seq<Pair>, name: string, i: nat, idx: nat)
    requires i < |pairs| && pairs[i].name == name && forall j | 0 <= j < i :: pairs[j].name != name
    requires idx > 0 && forall j | i < j < |pairs| :: pairs[j].value == "x"
    ensures Nth(pairs, name, idx) != Some("y")
  {
    if i > 0 {
      LaterNth(pairs[1..], name, i - 1, idx);
    } else {
      AllNth(pairs[1..], name, idx - 1);
    }
  }

  lemma {:induction false} AllNth(pairs: seq<Pair>, name: string, idx: nat)
    requires forall j | 0 <= j < |pairs| :: pairs[j].value == "x"
    ensures Nth(pairs, name, idx) != Some("y")
  {
    if pairs != [] {
      AllNth(pairs[1..], name, idx);
      if idx > 0 {
        AllNth(pairs[1..], name, idx - 1);
      }
    }
  }

  /** In the header `a=1; a=2` the match with idx 1 is not the one that the lookup gives. */
  lemma IdxIsIgnored()
    ensures
      var pairs := Split("a=1; a=2");
      FirstValue(pairs, "a") == Some("1") && Nth(pairs, "a", 1) == Some("2")
  {
    hide Split, IndexOf;
    var s := "a=1; a=2";
    IndexIs(s, '=', 0, 1);
    IndexIs(s, ';', 2, 3);
    IndexIs(s, '=', 5, 6);
    IndexIs(s, ';', 7, 8);
    assert SkipBlanks(s, 0) == 0 && SkipBlanks(s, 4) == 5;
    SplitAt(s, 0, 0, 1, 3);
    SplitAt(s, 4, 5, 6, 8);
    assert s[0..] == s && s[0..1] == "a" && s[2..3] == "1" && s[5..6] == "a" && s[7..8] == "2";
    assert Split(s) == [Pair("a", "1"), Pair("a", "2")];
    assert [Pair("a", "1"), Pair("a", "2")][1..] == [Pair("a", "2")];
  }

  /** The two lookups agree on every header in which the name occurs at most once. */
  lemma {:induction false} LookupsAgree(pairs: seq<Pair>, name: string)
    requires forall i, j | 0 <= i < j < |pairs| :: !(pairs[i].name == name && pairs[j].name == name)
    ensures FirstValue(pairs, name) == LastValue(pairs, name)
  {
    if pairs != [] {
      var init := pairs[..|pairs| - 1];
      LookupsAgree(init, name);
      FirstOfMore(init, pairs[|pairs| - 1], name);
      assert pairs == init + [pairs[|pairs| - 1]];
      if pairs[|pairs| - 1].name == name {
        NoneFound(init, name);
      }
    }
  }

  lemma {:induction false} LastFound(pairs: seq<Pair>, name: string, j: nat)
    requires j < |pairs| && pairs[j].name == name
    ensures LastValue(pairs, name).Some?
    ensures (forall k | j <= k < |pairs| :: pairs[k].value == "x") ==> LastValue(pairs, name) == Some("x")
  {
    if j < |pairs| - 1 && pairs[|pairs| - 1].name != name {
      LastFound(pairs[..|pairs| - 1], name, j);
    }
  }

  ghost predicate AtMostOnce(names: seq<string>, name: string) {
    forall i, j | 0 <= i < j < |names| :: !(names[i] == name && names[j] == name)
  }

  ghost predicate SameLookup(names: seq<string>, values: seq<string>, name: string) {
    |names| == |values| ==> FirstValue(Zip(names, values), name) == LastValue(Zip(names, values), name)
  }

  /** For given names, the two lookups agree whatever the values are exactly when the name occurs at most once. */
  lemma LookupsAgreeIff(names: seq<string>, name: string)
    ensures (forall values: seq<string> :: SameLookup(names, values, name)) <==> AtMostOnce(names, name)
  {
    if AtMostOnce(names, name) {
      forall values: seq<string> | |values| == |names| {
        LookupsAgree(Zip(names, values), name);
      }
    } else {
      var a, j :| 0 <= a < j < |names| && names[a] == name && names[j] == name;
      var i := IndexOfName(names, name);
      var values := seq(|names|, k => if k == i then "y" else "x");
      FirstFound(Zip(names, values), name, i);
      LastFound(Zip(names, values), name, j);
      assert !SameLookup(names, values, name);
    }
  }

  lemma {:induction false} FirstOfMore(pairs: seq<Pair>, last: Pair, name: string)
    ensures FirstValue(pairs + [last], name) ==
      if FirstValue(pairs, name).Some? then FirstValue(pairs, name)
      else if last.name == name then Some(last.value) else None
  {
    if pairs != [] {
      assert (pairs + [last])[1..] == pairs[1..] + [last];
      FirstOfMore(pairs[1..], last, name);
    }
  }

  lemma {:induction false} NoneFound(pairs: seq<Pair>, name: string)
    requires forall i | 0 <= i < |pairs| :: pairs[i].name != name
    ensures FirstValue(pairs, name) == None
  {
    if pairs != [] {
      NoneFound(pairs[1..], name);
    }
  }

  // Writing cookies.

  ghost predicate AllBlank(s: string) {
    forall i | 0 <= i < |s| :: IsBlank(s[i])
  }

  /** Cookies written one after the other, with blanks in front of each, and the text behind the last value. */
  function Write(pairs: seq<Pair>, blanks: seq<string>, last: string): string
    requires |blanks| == |pairs|
  {
    if pairs == [] then last
    else
      blanks[0] + (pairs[0].name + ("=" + (pairs[0].value +
                   (if |pairs| == 1 then last else ";" + Write(pairs[1..], blanks[1..], last)))))
  }

  /** A name holds no `=` and does not start with a blank; a value holds no `;`; the text behind the last value holds no
      `=` and starts with a `;`, unless it is empty or there is no cookie. */
  ghost predicate Writable(pairs: seq<Pair>, blanks: seq<string>, last: string) {
    && |blanks| == |pairs|
    && (forall i | 0 <= i < |pairs| :: AllBlank(blanks[i]) && WritablePair(pairs[i]))
    && '=' !in last && (pairs != [] && last != "" ==> last[0] == ';')
  }

  predicate WritablePair(p: Pair) {
    '=' !in p.name && (p.name != "" ==> !IsBlank(p.name[0])) && ';' !in p.value
  }

  lemma {:induction false} BlanksDropped(b: string, t: string)
    requires AllBlank(b) && (t != "" ==> !IsBlank(t[0]))
    ensures DropBlanks(b + t) == t
  {
    if b == "" {
      assert b + t == t;
    } else {
      assert (b + t)[1..] == b[1..] + t;
      BlanksDropped(b[1..], t);
    }
  }

  lemma {:induction false} BlanksCut(s: string) returns (b: string)
    ensures s == b + DropBlanks(s) && AllBlank(b) && (DropBlanks(s) != "" ==> !IsBlank(DropBlanks(s)[0]))
  {
    b := "";
    if s != "" && IsBlank(s[0]) {
      b := BlanksCut(s[1..]);
      b := [s[0]] + b;
    }
  }

  lemma FirstWritten(b: string, p: Pair, rest: string)
    requires AllBlank(b) && WritablePair(p) && (rest == "" || rest[0] == ';')
    ensures SplitFirst(b + (p.name + ("=" + (p.value + rest)))) ==
      Some(First(p, if rest == "" then None else Some(rest[1..])))
  {
    hide IndexOf, DropBlanks;
    var v := p.value + rest;
    var t := p.name + ("=" + v);
    BlanksDropped(b, t);
    CutOff(p.name, "=" + v, '=');
    CutOff(p.value, rest, ';');
    assert t[|p.name| + 1..] == v;
    assert rest != "" ==> v[|p.value| + 1..] == rest[1..];
  }

  lemma CutOff(a: string, rest: string, c: char)
    requires c !in a && (rest == "" || rest[0] == c)
    ensures IndexOf(a + rest, c, 0) == |a| && (a + rest)[..|a|] == a
  {
    hide IndexOf;
    assert forall i | 0 <= i < |a| :: (a + rest)[i] == a[i] && a[i] in a;
    IndexIs(a + rest, c, 0, |a|);
  }

  lemma SplitIs(s: string, f: Option<First>)
    requires SplitFirst(s) == f
    ensures Split(s) == match f
      case None => []
      case Some(f) => [f.pair] + if f.rest.None? then [] else Split(f.rest.value)
  {
    hide SplitFirst;
  }

  lemma NoCookie(s: string)
    requires '=' !in s
    ensures SplitFirst(s) == None && Split(s) == []
  {
    hide IndexOf, DropBlanks;
    var b := BlanksCut(s);
    var t := DropBlanks(s);
    assert forall i | 0 <= i < |t| :: t[i] == s[|b| + i];
    IndexIs(t, '=', 0, |t|);
    SplitIs(s, None);
  }

  lemma {:induction false} SplitWritten(pairs: seq<Pair>, blanks: seq<string>, last: string)
    requires Writable(pairs, blanks, last)
    ensures Split(Write(pairs, blanks, last)) == pairs
  {
    hide Split, SplitFirst, WritablePair, AllBlank;
    if pairs == [] {
      NoCookie(last);
    } else {
      var rest := if |pairs| == 1 then last else ";" + Write(pairs[1..], blanks[1..], last);
      FirstWritten(blanks[0], pairs[0], rest);
      SplitIs(Write(pairs, blanks, last), Some(First(pairs[0], if rest == "" then None else Some(rest[1..]))));
      if |pairs| == 1 {
        if rest != "" {
          NoCookie(rest[1..]);
        }
      } else {
        assert rest[1..] == Write(pairs[1..], blanks[1..], last);
        SplitWritten(pairs[1..], blanks[1..], last);
      }
      assert pairs == [pairs[0]] + pairs[1..];
    }
  }

  /** The parts of a text that holds a cookie. */
  lemma FirstSpelled(s: string) returns (b: string, rest: string)
    requires SplitFirst(s).Some?
    ensures
      var f := SplitFirst(s).value;
      && AllBlank(b) && WritablePair(f.pair)
      && s == b + (f.pair.name + ("=" + (f.pair.value + rest)))
      && rest == (if f.rest.None? then "" else ";" + f.rest.value)
  {
    hide IndexOf, DropBlanks, SplitFirst, AllBlank;
    b := BlanksCut(s);
    var t := DropBlanks(s);
    var eq := IndexOf(t, '=', 0);
    SplitFirstIs(s, t, eq, if eq < |t| then t[eq + 1..] else "", if eq < |t| then IndexOf(t[eq + 1..], ';', 0) else 0);
    var v := t[eq + 1..];
    var semi := IndexOf(v, ';', 0);
    rest := v[semi..];
    CutAtChar(t, '=', eq);
    CutAtChar(v, ';', semi);
  }

  lemma CutAtChar(s: string, c: char, p: nat)
    requires p == IndexOf(s, c, 0)
    ensures s == s[..p] + s[p..] && c !in s[..p] && (p < |s| ==> s[p..] == [c] + s[p + 1..])
  {
    hide IndexOf;
    IndexOfFirst(s, c, 0);
    NotIn(s[..p], c);
  }

  lemma NotIn(s: string, c: char)
    requires forall i | 0 <= i < |s| :: s[i] != c
    ensures c !in s
  {
  }

  lemma {:induction false} Spelled(s: string) returns (blanks: seq<string>, last: string)
    ensures Writable(Split(s), blanks, last) && s == Write(Split(s), blanks, last)
    decreases |s|
  {
    hide Split, SplitFirst, WritablePair, AllBlank;
    SplitIs(s, SplitFirst(s));
    match SplitFirst(s) {
      case None =>
        blanks, last := [], s;
        NoEquals(s);
      case Some(f) =>
        var b, rest := FirstSpelled(s);
        if f.rest.None? {
          blanks, last := [b], "";
        } else {
          blanks, last := Spelled(f.rest.value);
          var tail := Split(f.rest.value);
          if tail == [] {
            blanks, last := [b], ";" + last;
          } else {
            WriteMore(f.pair, tail, b, blanks, last);
            blanks := [b] + blanks;
          }
        }
    }
  }

  lemma WriteMore(p: Pair, pairs: seq<Pair>, b: string, blanks: seq<string>, last: string)
    requires |blanks| == |pairs| > 0
    ensures Write([p] + pairs, [b] + blanks, last) ==
      b + (p.name + ("=" + (p.value + (";" + Write(pairs, blanks, last)))))
  {
    assert ([p] + pairs)[1..] == pairs && ([b] + blanks)[1..] == blanks;
  }

  lemma NoEquals(s: string)
    requires SplitFirst(s).None?
    ensures '=' !in s
  {
    hide IndexOf, DropBlanks;
    var b := BlanksCut(s);
    IndexOfFirst(DropBlanks(s), '=', 0);
  }

  /** The splitter gives exactly the cookies that the text is some way of writing. */
  lemma SplitIff(s: string, pairs: seq<Pair>)
    ensures Split(s) == pairs <==>
      exists blanks, last | Writable(pairs, blanks, last) :: s == Write(pairs, blanks, last)
  {
    hide Split, Write, WritablePair, AllBlank;
    if Split(s) == pairs {
      var blanks, last := Spelled(s);
    }
    forall blanks, last | Writable(pairs, blanks, last) && s == Write(pairs, blanks, last)
      ensures Split(s) == pairs
    {
      SplitWritten(pairs, blanks, last);
    }
  }

  lemma BlankIs(c: char)
    ensures IsBlank(c) <==> c in " \t\n\r"
  {
  }
}
