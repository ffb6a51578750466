/** Rendering a rendered page again.  The application renders each page with its global variables, keeping unknown
    expressions, and then renders the result with the variables of one request (src/application.cpp, src/appauth.cpp).
    This module proves exactly when the two passes are one pass with both sets of variables. */
module TemplateTwice {
  import opened Template

  /** Scanning s meets no expression it could replace, and ends outside any expression. */
  predicate Inert(s: string)
    decreases |s|
  {
    match CutFirst(s)
    case Plain => Find(s, '<', '%', 0) == -1
    case Expr(_, inside, rest) => !IsValidName(Trim(inside)) && Inert(rest)
  }

  /** What a first-pass value must satisfy, whatever text surrounds it. */
  predicate SafeValue(v: string) {
    v != "" && v[|v| - 1] != '<' && Inert(v) && Inert("<" + v)
  }

  predicate SafeValues(m: Variables) {
    forall n | n in m && IsValidName(n) :: SafeValue(m[n])
  }

  /** Two passes give what one pass with both sets of variables gives, the first set winning. */
  ghost predicate PassesAgree(t: string, m1: Variables, m2: Variables, leaveUnknown: bool) {
    Rendered(Rendered(t, m1, true), m2, leaveUnknown) == Rendered(t, m2 + m1, leaveUnknown)
  }

  predicate Touches(a: string, b: string) {
    a != "" && b != "" && a[|a| - 1] == '<' && b[0] == '%'
  }

  // Sufficiency.

  /** An expression that is complete stays where it is when text is appended. */
  lemma CutWithSuffix(s: string, y: string)
    requires CutFirst(s).Expr?
    ensures CutFirst(s + y) == CutFirst(s).(rest := CutFirst(s).rest + y)
  {
    hide Find;
    FindInPrefix(s, s + y, '<', '%', 0);
    var start := Find(s, '<', '%', 0);
    FindInPrefix(s, s + y, '%', '>', start + 2);
  }

  lemma FindInPrefix(s: string, s': string, c: char, d: char, from: nat)
    requires s <= s' && Find(s, c, d, from) != -1
    ensures Find(s', c, d, from) == Find(s, c, d, from)
  {
    hide Find;
    FindFirst(s, c, d, from);
    FindFirst(s', c, d, from);
    assert forall i | 0 <= i <= Find(s, c, d, from) :: PairAt(s, c, d, i) == PairAt(s', c, d, i);
  }

  /** No opening delimiter starts inside p, in p + w. */
  lemma NoneInPrefix(p: string, w: string)
    requires Find(p, '<', '%', 0) == -1 && !Touches(p, w)
    ensures Find(p + w, '<', '%', 0) == Find(p + w, '<', '%', |p|)
  {
    hide Find;
    var s := p + w;
    FindFirst(p, '<', '%', 0);
    FindFirst(s, '<', '%', 0);
    FindFirst(s, '<', '%', |p|);
    assert forall i | 0 <= i < |p| - 1 :: PairAt(s, '<', '%', i) == PairAt(p, '<', '%', i);
    assert p != "" ==> !PairAt(s, '<', '%', |p| - 1);
  }

  /** Text that opens no expression is left in front. */
  lemma CutWithPrefix(p: string, w: string)
    requires Find(p, '<', '%', 0) == -1 && !Touches(p, w)
    ensures (Find(p + w, '<', '%', 0) == -1) == (Find(w, '<', '%', 0) == -1)
    ensures CutFirst(p + w) ==
      match CutFirst(w)
      case Plain => Plain
      case Expr(before, inside, rest) => Expr(p + before, inside, rest)
  {
    hide Find, CutFirst;
    var s := p + w;
    assert s[|p|..] == w && s[0..] == s;
    NoneInPrefix(p, w);
    CutAt(s, |p|);
    CutAt(s, 0);
    FindShift(s, '<', '%', |p|, 0);
    var start := Find(s, '<', '%', |p|);
    assert start != -1 ==> s[..start] == p + s[|p|..start];
  }

  lemma InertPrefix(p: string, w: string)
    requires Find(p, '<', '%', 0) == -1 && !Touches(p, w)
    ensures Inert(p + w) == Inert(w)
  {
    hide Find, CutFirst;
    CutWithPrefix(p, w);
  }

  /** Plain text followed by a safe value is inert, even when the two together open an expression. */
  lemma SafeAfterPlain(g: string, v: string)
    requires Find(g, '<', '%', 0) == -1 && SafeValue(v)
    ensures Inert(g + v)
  {
    hide Find, Inert;
    if Touches(g, v) {
      var p := g[..|g| - 1];
      assert g + v == p + ("<" + v);
      FindFirst(g, '<', '%', 0);
      FindFirst(p, '<', '%', 0);
      assert Find(p, '<', '%', 0) != -1 ==> PairAt(g, '<', '%', Find(p, '<', '%', 0));
      InertPrefix(p, "<" + v);
    } else {
      InertPrefix(g, v);
    }
  }

  /** Inert text is copied, and rendering goes on behind it as if it were not there. */
  lemma {:induction false} InertCopied(a: string, y: string, vars: Variables, leaveUnknown: bool)
    requires Inert(a) && !Touches(a, y)
    ensures Rendered(a + y, vars, leaveUnknown) == a + Rendered(y, vars, leaveUnknown)
    decreases |a|
  {
    hide Find, CutFirst, Substitute, Trim, IsValidName;
    match CutFirst(a)
    case Plain =>
      CutWithPrefix(a, y);
      if CutFirst(y).Expr? {
        var Expr(before, inside, rest) := CutFirst(y);
        Regroup(a, before, Substitute(inside, vars, leaveUnknown), Rendered(rest, vars, leaveUnknown));
      }
    case Expr(before, inside, rest) =>
      CutWithSuffix(a, y);
      CutShape(a);
      InertCopied(rest, y, vars, leaveUnknown);
      InvalidKept(inside, vars, leaveUnknown);
      Regroup(before, "<%", inside, "%>");
      Regroup(before + ("<%" + inside + "%>"), rest, "", Rendered(y, vars, leaveUnknown));
  }

  lemma InvalidKept(inside: string, vars: Variables, leaveUnknown: bool)
    requires !IsValidName(Trim(inside))
    ensures Substitute(inside, vars, leaveUnknown) == "<%" + inside + "%>"
  {
  }

  /** Two passes are one pass, for every template and every second set of variables, when first-pass values are safe. */
  lemma {:induction false} TwoPassesAreOne(t: string, m1: Variables, m2: Variables, leaveUnknown: bool)
    requires SafeValues(m1)
    ensures PassesAgree(t, m1, m2, leaveUnknown)
    decreases |t|
  {
    hide Find, CutFirst, SafeValue, IsValidName, Trim;
    match CutFirst(t)
    case Plain =>
    case Expr(before, inside, rest) =>
      TwoPassesAreOne(rest, m1, m2, leaveUnknown);
      var y := Rendered(rest, m1, true);
      PlainBefore(t);
      var name := Trim(inside);
      if IsValidName(name) && name in m1 {
        var v := m1[name];
        SafeAfterPlain(before, v);
        NotTouching(before, v, y);
        InertCopied(before + v, y, m2, leaveUnknown);
      } else {
        CutWritten(before, inside, y);
      }
  }

  lemma PlainBefore(t: string)
    requires CutFirst(t).Expr?
    ensures Find(CutFirst(t).before, '<', '%', 0) == -1
    ensures Find(CutFirst(t).inside, '%', '>', 0) == -1
  {
    hide Find;
    var Expr(before, inside, rest) := CutFirst(t);
    FindFirst(t, '<', '%', 0);
    FindFirst(before, '<', '%', 0);
    var r := Find(before, '<', '%', 0);
    assert r != -1 ==> PairAt(t, '<', '%', r);
    var start := Find(t, '<', '%', 0);
    FindFirst(t, '%', '>', start + 2);
    FindFirst(inside, '%', '>', 0);
    var q := Find(inside, '%', '>', 0);
    assert q != -1 ==> PairAt(t, '%', '>', start + 2 + q);
  }

  lemma NotTouching(g: string, v: string, y: string)
    requires SafeValue(v)
    ensures !Touches(g + v, y)
  {
  }

  lemma FindIs(s: string, c: char, d: char, from: nat, r: nat)
    requires from <= r && PairAt(s, c, d, r)
    requires forall i | from <= i < r :: !PairAt(s, c, d, i)
    ensures Find(s, c, d, from) == r
  {
    hide Find;
    FindFirst(s, c, d, from);
  }

  /** An expression written out is the first expression found. */
  lemma CutWritten(before: string, inside: string, y: string)
    requires Find(before, '<', '%', 0) == -1 && Find(inside, '%', '>', 0) == -1
    ensures CutFirst(before + ("<%" + inside + "%>") + y) == Expr(before, inside, y)
  {
    hide Find;
    var s := before + ("<%" + inside + "%>") + y;
    var start, end := |before|, |before| + 2 + |inside|;
    FindFirst(before, '<', '%', 0);
    FindFirst(inside, '%', '>', 0);
    forall i | 0 <= i < start
      ensures !PairAt(s, '<', '%', i)
    {
      assert i < start - 1 ==> PairAt(s, '<', '%', i) == PairAt(before, '<', '%', i);
    }
    FindIs(s, '<', '%', 0, start);
    forall i | start + 2 <= i < end
      ensures !PairAt(s, '%', '>', i)
    {
      assert i < end - 1 ==> PairAt(s, '%', '>', i) == PairAt(inside, '%', '>', i - start - 2);
    }
    FindIs(s, '%', '>', start + 2, end);
    assert s[..start] == before && s[start + 2..end] == inside && s[end + 2..] == y;
  }

  /** An expression written behind plain text is replaced by what its name stands for, and nothing else changes. */
  lemma RenderedWritten(before: string, inside: string, rest: string, vars: Variables, leaveUnknown: bool)
    requires Find(before, '<', '%', 0) == -1 && Find(inside, '%', '>', 0) == -1
    ensures Rendered(before + ("<%" + inside + "%>") + rest, vars, leaveUnknown) ==
      before + Substitute(inside, vars, leaveUnknown) + Rendered(rest, vars, leaveUnknown)
  {
    hide Find, CutFirst, Substitute;
    CutWritten(before, inside, rest);
  }

  /** A name with whitespace on both sides becomes its value; without a value it stays as it was written, or goes away
      when unknown names are not kept. */
  lemma NameReplaced(before: string, left: string, name: string, right: string, rest: string, vars: Variables,
                     leaveUnknown: bool)
    requires Find(before, '<', '%', 0) == -1
    requires IsValidName(name) && AllWhitespace(left) && AllWhitespace(right)
    ensures
      var inside := left + name + right;
      var tail := Rendered(rest, vars, leaveUnknown);
      Rendered(before + ("<%" + inside + "%>") + rest, vars, leaveUnknown) ==
      if name in vars then before + vars[name] + tail
      else if leaveUnknown then before + ("<%" + inside + "%>") + tail
      else before + tail
  {
    hide Find, CutFirst, Rendered, Trim, IsValidName, AllWhitespace;
    var inside := left + name + right;
    NameTrimmed(left, name, right);
    RenderedWritten(before, inside, rest, vars, leaveUnknown);
    assert before + "" == before;
  }

  /** Text between delimiters that is not a name once it is trimmed stays as it was written. */
  lemma NonNameKept(before: string, inside: string, rest: string, vars: Variables, leaveUnknown: bool)
    requires Find(before, '<', '%', 0) == -1 && Find(inside, '%', '>', 0) == -1 && !IsValidName(Trim(inside))
    ensures Rendered(before + ("<%" + inside + "%>") + rest, vars, leaveUnknown) ==
      before + ("<%" + inside + "%>") + Rendered(rest, vars, leaveUnknown)
  {
    hide Find, CutFirst, Rendered, Trim, IsValidName;
    RenderedWritten(before, inside, rest, vars, leaveUnknown);
  }

  lemma NameTrimmed(left: string, name: string, right: string)
    requires IsValidName(name) && AllWhitespace(left) && AllWhitespace(right)
    ensures Trim(left + name + right) == name && Find(left + name + right, '%', '>', 0) == -1
  {
    hide Find;
    var inside := left + name + right;
    FindFirst(inside, '%', '>', 0);
    assert inside == left + (name + right);
    TrimLeftOf(left, name + right);
    TrimRightOf(name, right);
    NoPercent(left, name, right);
  }

  lemma NoPercent(left: string, name: string, right: string)
    requires IsValidName(name) && AllWhitespace(left) && AllWhitespace(right)
    ensures forall i | 0 <= i < |left + name + right| :: (left + name + right)[i] != '%'
  {
    NameFacts(name);
  }

  lemma {:induction false} TrimLeftOf(left: string, s: string)
    requires AllWhitespace(left) && s != "" && !IsWhitespace(s[0])
    ensures TrimLeft(left + s) == s
  {
    if left == "" {
      assert left + s == s;
    } else {
      assert (left + s)[1..] == left[1..] + s;
      TrimLeftOf(left[1..], s);
    }
  }

  lemma {:induction false} TrimRightOf(s: string, right: string)
    requires AllWhitespace(right) && s != "" && !IsWhitespace(s[|s| - 1])
    ensures TrimRight(s + right) == s
  {
    if right == "" {
      assert s + right == s;
    } else {
      assert (s + right)[..|s + right| - 1] == s + right[..|right| - 1];
      TrimRightOf(s, right[..|right| - 1]);
    }
  }

  /** Without variables, every text is rendered to itself. */
  lemma {:induction false} NothingToReplace(s: string)
    ensures Rendered(s, map[], true) == s
    decreases |s|
  {
    hide Find, CutFirst, IsValidName, Trim;
    match CutFirst(s)
    case Plain =>
    case Expr(before, inside, rest) =>
      CutShape(s);
      NothingToReplace(rest);
      Regroup(before, "<%", inside, "%>");
  }

  // Necessity.

  /** Scanning s ends inside an expression, after expressions that are never replaced. */
  predicate Open(s: string)
    decreases |s|
  {
    match CutFirst(s)
    case Plain => Find(s, '<', '%', 0) != -1
    case Expr(_, inside, rest) => !IsValidName(Trim(inside)) && Open(rest)
  }

  lemma {:induction false} NeverLonger(s: string, x: string)
    ensures |Rendered(s, map[x := ""], true)| <= |s|
    decreases |s|
  {
    hide Find, CutFirst, Trim, IsValidName;
    match CutFirst(s)
    case Plain =>
    case Expr(_, inside, rest) => NeverLonger(rest, x);
  }

  /** Text that is neither inert nor open holds an expression that some variable erases. */
  lemma {:induction false} Erasable(s: string) returns (x: string)
    requires !Inert(s) && !Open(s)
    ensures |Rendered(s, map[x := ""], true)| < |s|
    decreases |s|
  {
    hide Find, CutFirst, Trim, IsValidName;
    var Expr(before, inside, rest) := CutFirst(s);
    if IsValidName(Trim(inside)) {
      x := Trim(inside);
      NeverLonger(rest, x);
    } else {
      x := Erasable(rest);
    }
  }

  lemma {:induction false} TrimKeeps(s: string, c: char)
    requires c in s && !IsWhitespace(c)
    ensures c in Trim(s)
  {
    TrimLeftKeeps(s, c);
    TrimRightKeeps(TrimLeft(s), c);
  }

  lemma {:induction false} TrimLeftKeeps(s: string, c: char)
    requires c in s && !IsWhitespace(c)
    ensures c in TrimLeft(s)
  {
    if IsWhitespace(s[0]) {
      assert s == [s[0]] + s[1..];
      TrimLeftKeeps(s[1..], c);
    }
  }

  lemma {:induction false} TrimRightKeeps(s: string, c: char)
    requires c in s && !IsWhitespace(c)
    ensures c in TrimRight(s)
  {
    if IsWhitespace(s[|s| - 1]) {
      assert s == s[..|s| - 1] + [s[|s| - 1]];
      TrimRightKeeps(s[..|s| - 1], c);
    }
  }

  lemma NameFacts(n: string)
    requires IsValidName(n)
    ensures Trim(n) == n && Find(n, '%', '>', 0) == -1
    ensures forall i | 0 <= i < |n| :: n[i] != '%' && n[i] != '<'
  {
    FindFirst(n, '%', '>', 0);
  }

  /** An open text swallows the delimiters of an expression that follows it. */
  lemma {:induction false} OpenSwallows(s: string, a: string, vars: Variables)
    requires Open(s) && IsValidName(a)
    ensures Rendered(s + ("<%" + a + "%>"), vars, true) == s + ("<%" + a + "%>")
    decreases |s|
  {
    hide Find, CutFirst, Trim, IsValidName, Substitute;
    var z := "<%" + a + "%>";
    match CutFirst(s)
    case Plain =>
      var before, inside := OpenCut(s, a);
      SwallowedInvalid(inside);
      InvalidKept(inside, vars, true);
      assert Rendered("", vars, true) == "" by { EmptyRendered(vars); }
    case Expr(before, inside, rest) =>
      CutWithSuffix(s, z);
      CutShape(s);
      OpenSwallows(rest, a, vars);
      InvalidKept(inside, vars, true);
      Regroup(before, "<%", inside, "%>");
      Regroup(before + ("<%" + inside + "%>"), rest, "", z);
  }

  lemma EmptyRendered(vars: Variables)
    ensures Rendered("", vars, true) == ""
  {
  }

  lemma SwallowedInvalid(inside: string)
    requires '<' in inside
    ensures !IsValidName(Trim(inside))
  {
    TrimKeeps(inside, '<');
  }

  lemma OpenCut(s: string, a: string) returns (before: string, inside: string)
    requires CutFirst(s).Plain? && Find(s, '<', '%', 0) != -1 && IsValidName(a)
    ensures CutFirst(s + ("<%" + a + "%>")) == Expr(before, inside, "")
    ensures '<' in inside
    ensures s + ("<%" + a + "%>") == before + ("<%" + inside + "%>")
  {
    hide Find, IsValidName;
    var start := Find(s, '<', '%', 0);
    FindFirst(s, '<', '%', 0);
    var v := s[start + 2..];
    before, inside := s[..start], v + "<%" + a;
    assert s == before + "<%" + v;
    assert s + ("<%" + a + "%>") == before + ("<%" + inside + "%>") + "";
    assert '<' in inside by { assert inside[|v|] == '<'; }
    FindFirst(before, '<', '%', 0);
    var r := Find(before, '<', '%', 0);
    assert r != -1 ==> PairAt(s, '<', '%', r);
    FindShift(s, '%', '>', start + 2, 0);
    NoCloseInside(v, a);
    CutWritten(before, inside, "");
  }

  lemma NoCloseInside(v: string, a: string)
    requires Find(v, '%', '>', 0) == -1 && IsValidName(a)
    ensures Find(v + "<%" + a, '%', '>', 0) == -1
  {
    hide Find, IsValidName;
    NameFacts(a);
    NameStarts(a);
    var inside := v + "<%" + a;
    FindFirst(v, '%', '>', 0);
    FindFirst(inside, '%', '>', 0);
    var q, k := Find(inside, '%', '>', 0), |v|;
    assert 0 <= q < k - 1 ==> PairAt(v, '%', '>', q);
    assert inside[k] == '<' && inside[k + 1] == '%' && forall i | 0 <= i < |a| :: inside[k + 2 + i] == a[i];
  }

  lemma NameStarts(a: string)
    requires IsValidName(a)
    ensures a != "" && a[0] != '>'
  {
  }

  lemma {:induction false} InertInit(v: string)
    requires Inert(v) && v != "" && v[|v| - 1] == '<'
    ensures Inert(v[..|v| - 1])
    decreases |v|
  {
    hide Find, CutFirst, Trim, IsValidName;
    match CutFirst(v)
    case Plain =>
      assert Find(v[..|v| - 1], '<', '%', 0) == -1 by {
        FindFirst(v, '<', '%', 0);
        FindFirst(v[..|v| - 1], '<', '%', 0);
        var r := Find(v[..|v| - 1], '<', '%', 0);
        assert r != -1 ==> PairAt(v, '<', '%', r);
      }
      PlainWithoutOpening(v[..|v| - 1]);
    case Expr(before, inside, rest) =>
      CutShape(v);
      PlainBefore(v);
      assert rest != "" && rest[|rest| - 1] == '<';
      InertInit(rest);
      assert v[..|v| - 1] == before + ("<%" + inside + "%>") + rest[..|rest| - 1];
      CutWritten(before, inside, rest[..|rest| - 1]);
  }

  lemma PlainWithoutOpening(s: string)
    requires Find(s, '<', '%', 0) == -1
    ensures CutFirst(s) == Plain
  {
  }

  lemma {:induction false} FreshName(taken: set<string>) returns (a: string)
    ensures IsValidName(a) && a !in taken
    ensures forall s | s in taken :: |s| < |a|
  {
    if taken == {} {
      a := "A";
    } else {
      var s :| s in taken;
      var b := FreshName(taken - {s});
      a := seq(|s| + |b| + 1, _ => 'A');
      forall u | u in taken
        ensures |u| < |a|
      {
        assert u == s || u in taken - {s};
      }
    }
  }

  /** How a page that puts n between p and tail is rendered. */
  lemma RenderedPage(p: string, n: string, tail: string, m: Variables)
    requires p == "" || p == "<"
    requires IsValidName(n) && n in m
    ensures Rendered(p + ("<%" + n + "%>") + tail, m, true) == p + m[n] + Rendered(tail, m, true)
  {
    hide Find, Rendered, IsValidName, Trim;
    NameFacts(n);
    assert Find(p, '<', '%', 0) == -1 by { FindFirst(p, '<', '%', 0); }
    RenderedWritten(p, n, tail, m, true);
  }

  /** A value that is not safe makes the passes disagree on some page. */
  lemma UnsafeValue(m1: Variables, n: string) returns (t: string, m2: Variables)
    requires n in m1 && IsValidName(n) && !SafeValue(m1[n])
    ensures !PassesAgree(t, m1, m2, true)
  {
    hide Rendered, Find, CutFirst, Inert, Open, IsValidName;
    var v := m1[n];
    if v == "" {
      InertLess();
      assert "<" + v == "<";
      t, m2 := LooseEnd("<", m1, n);
    } else if !Inert(v) {
      assert "" + v == v;
      t, m2 := NotInert("", m1, n);
    } else if !Inert("<" + v) {
      t, m2 := NotInert("<", m1, n);
    } else {
      assert "" + v == v;
      t, m2 := LooseEnd("", m1, n);
    }
  }

  lemma NotInert(p: string, m1: Variables, n: string) returns (t: string, m2: Variables)
    requires p == "" || p == "<"
    requires n in m1 && IsValidName(n) && !Inert(p + m1[n])
    ensures !PassesAgree(t, m1, m2, true)
  {
    hide Rendered, Find, CutFirst, Inert, Open, IsValidName;
    var v := m1[n];
    if Open(p + v) {
      var a := FreshName(m1.Keys);
      m2 := map[a := ""];
      var z := "<%" + a + "%>";
      t := p + ("<%" + n + "%>") + z;
      RenderedPage(p, n, z, m1);
      RenderedPage(p, n, z, m2 + m1);
      UnknownKept(a, m1);
      RenderedPage("", a, "", m2 + m1);
      assert "" + z + "" == z;
      EmptyRendered(m2 + m1);
      OpenSwallows(p + v, a, m2);
    } else {
      var x := Erasable(p + v);
      m2 := map[x := ""];
      t := p + ("<%" + n + "%>") + "";
      RenderedPage(p, n, "", m1);
      RenderedPage(p, n, "", m2 + m1);
      EmptyRendered(m1);
      EmptyRendered(m2 + m1);
      assert p + v + "" == p + v;
    }
  }

  lemma UnknownKept(a: string, m: Variables)
    requires IsValidName(a) && a !in m
    ensures Rendered("<%" + a + "%>", m, true) == "<%" + a + "%>"
  {
    hide Find, CutFirst, IsValidName, Trim;
    NameFacts(a);
    assert Find("", '<', '%', 0) == -1;
    CutWritten("", a, "");
    assert "" + ("<%" + a + "%>") + "" == "<%" + a + "%>";
    EmptyRendered(m);
  }

  /** A value after which a `<` is left over: the text that follows can complete a delimiter. */
  lemma LooseEnd(p: string, m1: Variables, n: string) returns (t: string, m2: Variables)
    requires p == "" || p == "<"
    requires n in m1 && IsValidName(n)
    requires var s := p + m1[n]; s != "" && s[|s| - 1] == '<' && Inert(s)
    ensures !PassesAgree(t, m1, m2, true)
  {
    hide Rendered, Find, CutFirst, Inert, IsValidName;
    var s := p + m1[n];
    var tail := "%A%>";
    m2 := map["A" := ""];
    t := p + ("<%" + n + "%>") + tail;
    RenderedPage(p, n, tail, m1);
    RenderedPage(p, n, tail, m2 + m1);
    PlainTail(m1);
    PlainTail(m2 + m1);
    var init := s[..|s| - 1];
    InertInit(s);
    InertCopied(init, "<%A%>", m2, true);
    assert s + tail == init + "<%A%>";
    assert Rendered("<%A%>", m2, true) == "" by {
      assert IsValidName("A") by { NameA(); }
      RenderedPage("", "A", "", m2);
      EmptyRendered(m2);
      assert "" + ("<%" + "A" + "%>") + "" == "<%A%>";
    }
  }

  lemma InertLess()
    ensures Inert("<")
  {
  }

  lemma NameA()
    ensures IsValidName("A")
  {
  }

  lemma PlainTail(m: Variables)
    ensures Rendered("%A%>", m, true) == "%A%>"
  {
    FindFirst("%A%>", '<', '%', 0);
  }

  /** The exact condition under which the application may render a page in two passes. */
  lemma TwoPassesIff(m1: Variables)
    ensures SafeValues(m1) <==> forall t: string, m2: Variables :: PassesAgree(t, m1, m2, true)
  {
    hide PassesAgree, SafeValue, IsValidName;
    if SafeValues(m1) {
      forall t: string, m2: Variables
        ensures PassesAgree(t, m1, m2, true)
      {
        TwoPassesAreOne(t, m1, m2, true);
      }
    } else {
      var n :| n in m1 && IsValidName(n) && !SafeValue(m1[n]);
      var t, m2 := UnsafeValue(m1, n);
    }
  }

  /** A condition that is easy to check by eye, and sufficient. */
  lemma OrdinaryValueIsSafe(v: string)
    requires v != "" && v[0] != '%' && v[|v| - 1] != '<'
    requires forall i :: !PairAt(v, '<', '%', i)
    ensures SafeValue(v)
  {
    hide Find;
    FindFirst(v, '<', '%', 0);
    PlainWithoutOpening(v);
    assert forall i | 1 <= i < |v| :: PairAt("<" + v, '<', '%', i) == PairAt(v, '<', '%', i - 1);
    FindFirst("<" + v, '<', '%', 0);
    PlainWithoutOpening("<" + v);
  }

  /** Both rendering stages, as the request handlers run them: the global page first, then a fresh engine on the
      rendered text with one more variable. */
  method ServePage(page: TemplateEngine, name: string, value: string) returns (final: string)
    ensures SafeValues(page.variables) ==>
      final == Rendered(page.template, map[name := value] + page.variables, true)
  {
    hide Rendered, SafeValue;
    var content := page.Render(true);
    var engine := new TemplateEngine(content);
    engine.SetVariable(name, value);
    final := engine.Render(true);
    assert engine.variables == map[name := value];
    if SafeValues(page.variables) {
      TwoPassesAreOne(page.template, page.variables, map[name := value], true);
    }
  }
}
