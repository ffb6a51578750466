/** NUL-terminated strings inside a buffer, and the searches of string.h on them. */
module CStrings {

  const NUL: char := '\0'

  datatype Option<+T> = None | Some(value: T)

  /** A NUL can be found at or after p. */
  ghost predicate Terminated(b: seq<char>, p: nat) {
    exists k :: p <= k < |b| && b[k] == NUL
  }

  /** The first position at or after `from` that holds c, or |s|. */
  function IndexOf(s: string, c: char, from: nat): (r: nat)
    requires from <= |s|
    ensures from <= r <= |s|
    ensures r < |s| ==> s[r] == c
    decreases |s| - from
  {
    if from == |s| || s[from] == c then from else IndexOf(s, c, from + 1)
  }

  lemma {:induction false} IndexOfFirst(s: string, c: char, from: nat)
    requires from <= |s|
    ensures forall i | from <= i < IndexOf(s, c, from) :: s[i] != c
    decreases |s| - from
  {
    if from < |s| && s[from] != c {
      IndexOfFirst(s, c, from + 1);
    }
  }

  lemma IndexIs(s: string, c: char, from: nat, r: nat)
    requires from <= r <= |s| && (r < |s| ==> s[r] == c) && forall i | from <= i < r :: s[i] != c
    ensures IndexOf(s, c, from) == r
  {
    hide IndexOf;
    IndexOfFirst(s, c, from);
  }

  /** The length of the string that starts the buffer. */
  function TextLength(b: seq<char>): (n: nat)
    requires Terminated(b, 0)
    ensures n < |b| && b[n] == NUL && NUL !in b[..n]
  {
    IndexOfFirst(b, NUL, 0);
    IndexOf(b, NUL, 0)
  }

  /** What c_str() lets a C function see of a counted string. */
  function CText(s: string): string {
    s[..IndexOf(s, NUL, 0)]
  }

  /** The string that starts the buffer. */
  function Text(b: seq<char>): (s: string)
    requires Terminated(b, 0)
    ensures |s| < |b| && s == b[..|s|] && b[|s|] == NUL && NUL !in s
  {
    b[..TextLength(b)]
  }

  /** The string that a pointer into the buffer denotes. */
  function StringAt(b: seq<char>, p: nat): string
    requires p <= |b|
  {
    b[p..IndexOf(b, NUL, p)]
  }

  /** Text in front of a NUL is what a pointer to it denotes. */
  lemma StringAtIs(b: seq<char>, p: nat, q: nat)
    requires p <= q < |b| && b[q] == NUL && NUL !in b[p..q]
    ensures StringAt(b, p) == b[p..q]
  {
    IndexOfFirst(b, NUL, p);
    assert forall i | p <= i < q :: b[i] == b[p..q][i - p];
  }

  /** The search only depends on the text at or after its start. */
  lemma {:induction false} IndexOfSuffix(s: string, s': string, c: char, from: nat)
    requires |s| == |s'| && from <= |s|
    requires forall i | from <= i < |s| :: s[i] == s'[i]
    ensures IndexOf(s, c, from) == IndexOf(s', c, from)
    decreases |s| - from
  {
    if from < |s| {
      IndexOfSuffix(s, s', c, from + 1);
    }
  }

  /** Searching from a position is searching the rest of the text. */
  lemma {:induction false} IndexOfShift(s: string, c: char, p: nat, from: nat)
    requires p + from <= |s|
    ensures IndexOf(s, c, p + from) == p + IndexOf(s[p..], c, from)
    decreases |s| - from
  {
    if p + from < |s| && s[p + from] != c {
      IndexOfShift(s, c, p, from + 1);
    }
  }

  /** strchr in the string that runs from p to `end`. */
  method StrChr(buf: array<char>, p: nat, c: char, ghost end: nat) returns (r: Option<nat>)
    requires p <= end < buf.Length && buf[end] == NUL && forall i | p <= i < end :: buf[i] != NUL
    requires c != NUL
    ensures var k := IndexOf(buf[..end], c, p); r == if k == end then None else Some(k)
  {
    var i := p;
    while buf[i] != c && buf[i] != NUL
      invariant p <= i <= end
      invariant IndexOf(buf[..end], c, p) == IndexOf(buf[..end], c, i)
      decreases end - i
    {
      i := i + 1;
    }
    if buf[i] == c {
      return Some(i);
    }
    return None;
  }

  /** The position behind the string that starts at p, as p + strlen(p) gives it. */
  method StrEnd(buf: array<char>, p: nat, ghost end: nat) returns (r: nat)
    requires p <= end < buf.Length && buf[end] == NUL && forall i | p <= i < end :: buf[i] != NUL
    ensures r == end
  {
    r := p;
    while buf[r] != NUL
      invariant p <= r <= end
      decreases end - r
    {
      r := r + 1;
    }
  }

  /** The last position that holds c, or -1. */
  function LastIndexOf(s: string, c: char): (r: int)
    ensures -1 <= r < |s|
    ensures r != -1 ==> s[r] == c
    ensures forall i | r < i < |s| :: s[i] != c
  {
    if s == "" then -1
    else if s[|s| - 1] == c then |s| - 1
    else LastIndexOf(s[..|s| - 1], c)
  }

  /** The part of a string that a bound of n characters lets a comparison see. */
  function Take(s: string, n: nat): string {
    if |s| <= n then s else s[..n]
  }

  /** A comparison bounded by the length of a is a prefix test. */
  lemma TakePrefix(a: string, b: string)
    ensures Take(a, |a|) == Take(b, |a|) <==> a <= b
  {
  }

  /** strncmp(a, b, n) == 0, on NUL-free strings. */
  method StrNCmpEqual(a: string, b: string, n: nat) returns (equal: bool)
    ensures equal <==> Take(a, n) == Take(b, n)
  {
    var i := 0;
    while i < n
      invariant i <= n && i <= |a| && i <= |b| && a[..i] == b[..i]
    {
      if i == |a| || i == |b| {
        assert Take(a, n) == Take(b, n) ==> |Take(a, n)| == |Take(b, n)|;
        return |a| == |b|;
      }
      if a[i] != b[i] {
        assert Take(a, n)[i] == a[i] && Take(b, n)[i] == b[i];
        return false;
      }
      i := i + 1;
    }
    return true;
  }
}
