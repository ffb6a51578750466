/** The `<% NAME %>` template engine of src/simpletemplate.hpp, and what happens when the application renders a page
    twice: first with its global variables, then with the variables of one request. */
module Template {

  type Variables = map<string, string>

  predicate IsWhitespace(c: char) {
    c == ' ' || c == '\t' || c == '\r' || c == '\n'
  }

  /** c d occurs at position i of s. */
  predicate PairAt(s: string, c: char, d: char, i: int) {
    0 <= i && i + 1 < |s| && s[i] == c && s[i + 1] == d
  }

  /** std::string::find for a two-character pattern; -1 stands for npos. */
  function Find(s: string, c: char, d: char, from: nat): (r: int)
    ensures r == -1 || from <= r <= |s| - 2
    decreases |s| - from
  {
    if from + 1 >= |s| then -1
    else if s[from] == c && s[from + 1] == d then from
    else Find(s, c, d, from + 1)
  }

  /** Find returns the first occurrence at or after `from`. */
  lemma {:induction false} FindFirst(s: string, c: char, d: char, from: nat)
    ensures var r := Find(s, c, d, from);
      (r != -1 ==> PairAt(s, c, d, r)) && forall i | from <= i && (r == -1 || i < r) :: !PairAt(s, c, d, i)
    decreases |s| - from
  {
    if from + 1 < |s| && !PairAt(s, c, d, from) {
      FindFirst(s, c, d, from + 1);
    }
  }

  function TrimLeft(s: string): string {
    if s != "" && IsWhitespace(s[0]) then TrimLeft(s[1..]) else s
  }

  function TrimRight(s: string): string {
    if s != "" && IsWhitespace(s[|s| - 1]) then TrimRight(s[..|s| - 1]) else s
  }

  function Trim(s: string): string {
    TrimRight(TrimLeft(s))
  }

  predicate AllWhitespace(s: string) {
    forall i | 0 <= i < |s| :: IsWhitespace(s[i])
  }

  /** Trim removes whitespace, all of it, at both ends and nothing else. */
  lemma TrimIs(s: string) returns (left: string, right: string)
    ensures s == left + Trim(s) + right && AllWhitespace(left) && AllWhitespace(right)
    ensures Trim(s) != "" ==> !IsWhitespace(Trim(s)[0]) && !IsWhitespace(Trim(s)[|Trim(s)| - 1])
  {
    left := TrimLeftIs(s);
    right := TrimRightIs(TrimLeft(s));
  }

  lemma {:induction false} TrimLeftIs(s: string) returns (left: string)
    ensures s == left + TrimLeft(s) && AllWhitespace(left)
    ensures TrimLeft(s) != "" ==> !IsWhitespace(TrimLeft(s)[0])
  {
    left := "";
    if s != "" && IsWhitespace(s[0]) {
      left := TrimLeftIs(s[1..]);
      left := [s[0]] + left;
    }
  }

  lemma {:induction false} TrimRightIs(s: string) returns (right: string)
    ensures s == TrimRight(s) + right && AllWhitespace(right)
    ensures TrimRight(s) != "" ==> !IsWhitespace(TrimRight(s)[|TrimRight(s)| - 1])
  {
    right := "";
    if s != "" && IsWhitespace(s[|s| - 1]) {
      right := TrimRightIs(s[..|s| - 1]);
      right := right + [s[|s| - 1]];
    }
  }

  predicate IsNameStart(c: char) {
    'A' <= c <= 'Z' || 'a' <= c <= 'z' || c == '_'
  }

  predicate IsNameChar(c: char) {
    IsNameStart(c) || '0' <= c <= '9'
  }

  predicate IsValidName(name: string) {
    name != "" && IsNameStart(name[0]) && forall i | 1 <= i < |name| :: IsNameChar(name[i])
  }

  lemma WhitespaceIs(c: char)
    ensures IsWhitespace(c) <==> c in " \t\r\n"
  {
  }

  lemma Upper1(c: char)
    ensures 'A' <= c <= 'M' <==> c in "ABCDEFGHIJKLM"
  {
    if 'A' <= c <= 'M' {
      assert "ABCDEFGHIJKLM"[c as int - 'A' as int] == c;
    }
  }

  lemma Upper2(c: char)
    ensures 'N' <= c <= 'Z' <==> c in "NOPQRSTUVWXYZ"
  {
    if 'N' <= c <= 'Z' {
      assert "NOPQRSTUVWXYZ"[c as int - 'N' as int] == c;
    }
  }

  lemma Lower1(c: char)
    ensures 'a' <= c <= 'm' <==> c in "abcdefghijklm"
  {
    if 'a' <= c <= 'm' {
      assert "abcdefghijklm"[c as int - 'a' as int] == c;
    }
  }

  lemma Lower2(c: char)
    ensures 'n' <= c <= 'z' <==> c in "nopqrstuvwxyz"
  {
    if 'n' <= c <= 'z' {
      assert "nopqrstuvwxyz"[c as int - 'n' as int] == c;
    }
  }

  lemma DigitIs(c: char)
    ensures '0' <= c <= '9' <==> c in "0123456789"
  {
    if '0' <= c <= '9' {
      assert "0123456789"[c as int - '0' as int] == c;
    }
  }

  const LETTERS := "_" + ("ABCDEFGHIJKLM" + "NOPQRSTUVWXYZ") + ("abcdefghijklm" + "nopqrstuvwxyz")

  lemma NameStartIs(c: char)
    ensures IsNameStart(c) <==> c in LETTERS
    ensures IsNameChar(c) <==> c in LETTERS || c in "0123456789"
    ensures c in LETTERS ==> c !in "0123456789"
  {
    Upper1(c);
    Upper2(c);
    Lower1(c);
    Lower2(c);
    DigitIs(c);
  }

  /** A name is a non-empty text of underscores, letters of either case and digits that does not start with a digit. */
  lemma ValidNameIs(name: string)
    ensures IsValidName(name) <==>
      && name != "" && name[0] !in "0123456789"
      && forall c | c in name :: c in LETTERS || c in "0123456789"
  {
    hide IsNameStart, IsNameChar;
    forall i | 0 <= i < |name|
      ensures IsNameStart(name[i]) <==> name[i] in LETTERS
      ensures IsNameChar(name[i]) <==> name[i] in LETTERS || name[i] in "0123456789"
      ensures name[i] in LETTERS ==> name[i] !in "0123456789"
    {
      NameStartIs(name[i]);
    }
  }

  /** A text cut at its first complete expression, if it has one. */
  datatype Cut = Plain | Expr(before: string, inside: string, rest: string)

  function CutFirst(s: string): (r: Cut)
    ensures r.Expr? ==> |r.before| + |r.inside| + |r.rest| + 4 == |s|
  {
    var start := Find(s, '<', '%', 0);
    var end := if start == -1 then -1 else Find(s, '%', '>', start + 2);
    if end == -1 then Plain else Expr(s[..start], s[start + 2..end], s[end + 2..])
  }

  lemma CutShape(s: string)
    requires CutFirst(s).Expr?
    ensures var r := CutFirst(s); s == r.before + "<%" + r.inside + "%>" + r.rest
  {
    FindFirst(s, '<', '%', 0);
    FindFirst(s, '%', '>', Find(s, '<', '%', 0) + 2);
  }

  /** What replaces the whole expression `<%inside%>`. */
  function Substitute(inside: string, vars: Variables, leaveUnknown: bool): string {
    var name := Trim(inside);
    if IsValidName(name) && name in vars then vars[name]
    else if IsValidName(name) && !leaveUnknown then ""
    else "<%" + inside + "%>"
  }

  /** Rendering, by recursion on the text that is left. */
  function Rendered(s: string, vars: Variables, leaveUnknown: bool): string
    decreases |s|
  {
    match CutFirst(s)
    case Plain => s
    case Expr(before, inside, rest) =>
      before + Substitute(inside, vars, leaveUnknown) + Rendered(rest, vars, leaveUnknown)
  }

  // The loops.

  method TrimView(value: string) returns (r: string)
    ensures r == Trim(value)
  {
    var begin, end := 0, |value|;
    while begin < end && IsWhitespace(value[begin])
      invariant 0 <= begin <= end == |value|
      invariant TrimLeft(value[begin..]) == TrimLeft(value)
    {
      assert value[begin..][1..] == value[begin + 1..];
      begin := begin + 1;
    }
    assert value[begin..end] == value[begin..] == TrimLeft(value);
    while end > begin && IsWhitespace(value[end - 1])
      invariant begin <= end <= |value|
      invariant TrimRight(value[begin..end]) == Trim(value)
    {
      assert value[begin..end][..end - 1 - begin] == value[begin..end - 1];
      end := end - 1;
    }
    r := value[begin..end];
  }

  method CheckName(name: string) returns (r: bool)
    ensures r == IsValidName(name)
  {
    if name == "" {
      return false;
    }
    if !IsNameStart(name[0]) {
      return false;
    }
    var i := 1;
    while i < |name|
      invariant 1 <= i <= |name|
      invariant forall j | 1 <= j < i :: IsNameChar(name[j])
    {
      if !IsNameChar(name[i]) {
        return false;
      }
      i := i + 1;
    }
    return true;
  }

  /** Searching from a position is searching the rest of the text. */
  lemma {:induction false} FindShift(s: string, c: char, d: char, p: nat, from: nat)
    requires p <= |s|
    ensures
      var r := Find(s[p..], c, d, from);
      Find(s, c, d, p + from) == if r == -1 then -1 else p + r
    decreases |s| - from
  {
    if p + from + 1 < |s| && !PairAt(s, c, d, p + from) {
      FindShift(s, c, d, p, from + 1);
    }
  }

  lemma DropSlice(t: string, p: nat, a: nat, b: nat)
    requires p <= |t| && a <= b <= |t| - p
    ensures t[p..][a..b] == t[p + a..p + b]
    ensures b == |t| - p ==> t[p..][a..] == t[p + a..]
  {
  }

  lemma Regroup(a: string, b: string, c: string, d: string)
    ensures a + b + c + d == a + (b + c + d)
  {
  }

  /** Cutting the rest of a text, in positions of the whole text. */
  lemma CutAt(t: string, position: nat)
    requires position <= |t|
    ensures
      var start := Find(t, '<', '%', position);
      var end := if start == -1 then -1 else Find(t, '%', '>', start + 2);
      CutFirst(t[position..]) ==
      if end == -1 then Plain else Expr(t[position..start], t[start + 2..end], t[end + 2..])
  {
    hide Find;
    var rest := t[position..];
    FindShift(t, '<', '%', position, 0);
    var start := Find(t, '<', '%', position);
    if start != -1 {
      FindShift(t, '%', '>', position, start + 2 - position);
      var end := Find(t, '%', '>', start + 2);
      if end != -1 {
        DropSlice(t, position, 0, start - position);
        DropSlice(t, position, start + 2 - position, end - position);
        DropSlice(t, position, end + 2 - position, |rest|);
      }
    }
  }

  lemma RenderedAt(t: string, position: nat, vars: Variables, leaveUnknown: bool)
    requires position <= |t|
    ensures
      var start := Find(t, '<', '%', position);
      var end := if start == -1 then -1 else Find(t, '%', '>', start + 2);
      Rendered(t[position..], vars, leaveUnknown) ==
      if end == -1 then t[position..]
      else
        t[position..start] + Substitute(t[start + 2..end], vars, leaveUnknown) +
        Rendered(t[end + 2..], vars, leaveUnknown)
  {
    hide CutFirst, Find, Substitute;
    CutAt(t, position);
  }

  /** One turn of the rendering loop. */
  lemma RenderStep(done: string, t: string, position: nat, vars: Variables, leaveUnknown: bool)
    requires position <= |t|
    ensures
      var start := Find(t, '<', '%', position);
      var end := if start == -1 then -1 else Find(t, '%', '>', start + 2);
      var all := done + Rendered(t[position..], vars, leaveUnknown);
      && (start == -1 ==> all == done + t[position..])
      && (start != -1 && end == -1 ==> all == done + t[position..start] + t[start..])
      && (end != -1 ==>
           all == done + t[position..start] + Substitute(t[start + 2..end], vars, leaveUnknown)
                + Rendered(t[end + 2..], vars, leaveUnknown))
    ensures position == |t| ==> done + Rendered(t[position..], vars, leaveUnknown) == done
  {
    hide Rendered, Find, Substitute;
    RenderedAt(t, position, vars, leaveUnknown);
    var start := Find(t, '<', '%', position);
    var end := if start == -1 then -1 else Find(t, '%', '>', start + 2);
    if end != -1 {
      Regroup(done, t[position..start], Substitute(t[start + 2..end], vars, leaveUnknown),
              Rendered(t[end + 2..], vars, leaveUnknown));
    } else if start != -1 {
      assert t[position..] == t[position..start] + t[start..];
      Regroup(done, t[position..start], t[start..], "");
    }
  }

  class TemplateEngine {
    var template: string
    var variables: Variables

    constructor (text: string)
      ensures template == text && variables == map[]
    {
      template := text;
      variables := map[];
    }

    method SetVariable(name: string, value: string)
      modifies `variables
      ensures variables == old(variables)[name := value]
    {
      variables := variables[name := value];
    }

    /** The branches that decide what one expression becomes. */
    method Expand(inside: string, leaveUnknown: bool) returns (r: string)
      ensures r == Substitute(inside, variables, leaveUnknown)
    {
      var variableName := TrimView(inside);
      var valid := CheckName(variableName);
      if valid {
        if variableName in variables {
          r := variables[variableName];
        } else if leaveUnknown {
          r := "<%" + inside + "%>";
        } else {
          r := "";
        }
      } else {
        r := "<%" + inside + "%>";
      }
    }

    method Render(leaveUnknown: bool) returns (result: string)
      ensures result == Rendered(template, variables, leaveUnknown)
    {
      hide Rendered, Substitute, Find;
      result := "";
      var position := 0;
      assert template[0..] == template;
      while position < |template|
        invariant 0 <= position <= |template|
        invariant result + Rendered(template[position..], variables, leaveUnknown)
               == Rendered(template, variables, leaveUnknown)
      {
        RenderStep(result, template, position, variables, leaveUnknown);
        var start := Find(template, '<', '%', position);
        if start == -1 {
          result := result + template[position..];
          return;
        }
        result := result + template[position..start];
        var end := Find(template, '%', '>', start + 2);
        if end == -1 {
          result := result + template[start..];
          return;
        }
        var replacement := Expand(template[start + 2..end], leaveUnknown);
        result := result + replacement;
        position := end + 2;
      }
      RenderStep(result, template, position, variables, leaveUnknown);
    }
  }
}
