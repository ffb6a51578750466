/** appauth_parse_first_number of src/appauth.cpp: a path component as a positive int. */
module NumberParser {
  import opened CStrings

  const INT_MAX := 0x7fff_ffff

  predicate IsDigit(c: char) {
    '0' <= c <= '9'
  }

  predicate AllDigits(s: string) {
    forall i | 0 <= i < |s| :: IsDigit(s[i])
  }

  function Value(s: string): nat
    requires AllDigits(s)
  {
    if s == "" then 0 else 10 * Value(s[..|s| - 1]) + (s[|s| - 1] as int - '0' as int)
  }

  /** The pieces between slashes, empty ones included. */
  function Pieces(s: string): (r: seq<string>)
    ensures |r| > 0
    decreases |s|
  {
    var slash := IndexOf(s, '/', 0);
    [s[..slash]] + if slash == |s| then [] else Pieces(s[slash + 1..])
  }

  /** What the function should return: the k-th piece behind the leading slash, read as a number. */
  function Number(k: int, s: string): int {
    if k > 0 && s != "" && s[0] == '/' && k < |Pieces(s)| && Pieces(s)[k] != "" && AllDigits(Pieces(s)[k]) &&
       Value(Pieces(s)[k]) <= INT_MAX
    then Value(Pieces(s)[k]) else 0
  }

  lemma PiecesStep(s: string, slash: nat)
    requires slash == IndexOf(s, '/', 0)
    ensures Pieces(s) == [s[..slash]] + if slash == |s| then [] else Pieces(s[slash + 1..])
  {
    hide IndexOf;
  }

  lemma PiecesAt(s: string, p: nat, slash: nat)
    requires p <= |s| && slash == IndexOf(s, '/', p)
    ensures Pieces(s[p..]) == [s[p..slash]] + (if slash == |s| then [] else Pieces(s[slash + 1..]))
  {
    hide IndexOf, Pieces;
    IndexOfShift(s, '/', p, 0);
    PiecesStep(s[p..], slash - p);
    assert s[p..][..slash - p] == s[p..slash];
    assert slash < |s| ==> s[p..][slash - p + 1..] == s[slash + 1..];
  }

  /** Moves behind the k-th slash. */
  method SkipPieces(s: string, k: nat) returns (r: Option<nat>)
    ensures k < |Pieces(s)| ==> r.Some? && r.value <= |s| && Pieces(s[r.value..]) == Pieces(s)[k..]
    ensures k >= |Pieces(s)| ==> r == None
  {
    hide Pieces, IndexOf;
    var p: nat := 0;
    assert s[0..] == s && Pieces(s)[0..] == Pieces(s);
    var i := 0;
    while i < k
      invariant 0 <= i <= k && i < |Pieces(s)| && p <= |s|
      invariant Pieces(s[p..]) == Pieces(s)[i..]
    {
      var q := FindSlash(s, p);
      PiecesAt(s, p, q);
      if q == |s| {
        assert |Pieces(s)[i..]| == 1;
        return None;
      }
      assert Pieces(s)[i..][1..] == Pieces(s)[i + 1..];
      p := q + 1;
      i := i + 1;
    }
    return Some(p);
  }

  method FindSlash(s: string, p: nat) returns (q: nat)
    requires p <= |s|
    ensures q == IndexOf(s, '/', p)
  {
    q := p;
    while q < |s| && s[q] != '/'
      invariant p <= q <= |s| && IndexOf(s, '/', q) == IndexOf(s, '/', p)
    {
      q := q + 1;
    }
  }

  method ParseFirstNumber(k: int, str: Option<string>) returns (n: int)
    ensures str.None? ==> n == 0
    ensures str.Some? ==> n == Number(k, str.value)
  {
    hide Pieces, IndexOf, Value;
    if str.None? || k <= 0 {
      return 0;
    }
    var s := str.value;
    if s == "" || s[0] != '/' {
      return 0;
    }
    var r := SkipPieces(s, k);
    if r.None? {
      return 0;
    }
    var start := r.value;
    var p := start;
    ghost var slash := IndexOf(s, '/', start);
    ghost var piece := s[start..slash];
    PiecesAt(s, start, slash);
    assert Pieces(s)[k] == Pieces(s)[k..][0] == piece;
    IndexOfFirst(s, '/', start);
    while p < |s| && IsDigit(s[p])
      invariant start <= p <= slash
      invariant AllDigits(s[start..p])
    {
      assert s[start..p + 1] == s[start..p] + [s[p]];
      p := p + 1;
    }
    assert p < slash ==> piece[p - start] == s[p] && !AllDigits(piece);
    if p == start {
      return 0;
    }
    if p < |s| && s[p] != '/' {
      return 0;
    }
    assert p == slash && s[start..p] == piece;
    var value := ReadDecimal(s[start..p]);
    if value > INT_MAX {
      return 0;
    }
    return value;
  }

  /** strtol on a run of digits, without its range limit: anything beyond it is beyond INT_MAX as well. */
  method ReadDecimal(s: string) returns (v: nat)
    requires AllDigits(s)
    ensures v == Value(s)
  {
    v := 0;
    var i := 0;
    while i < |s|
      invariant 0 <= i <= |s| && v == Value(s[..i])
    {
      assert s[..i + 1][..i] == s[..i];
      v := 10 * v + (s[i] as int - '0' as int);
      i := i + 1;
    }
    assert s[..i] == s;
  }

  // Printing.

  function Decimal(n: nat): (s: string)
    ensures s != "" && AllDigits(s)
  {
    var last := ['0' + (n % 10) as char];
    if n < 10 then last else Decimal(n / 10) + last
  }

  lemma {:induction false} ValueOfDecimal(n: nat)
    ensures Value(Decimal(n)) == n
  {
    var s := Decimal(n);
    if n < 10 {
      assert s[..0] == "";
    } else {
      ValueOfDecimal(n / 10);
      assert s[..|s| - 1] == Decimal(n / 10);
    }
  }

  lemma {:induction false} LeadingZeros(zeros: nat, s: string)
    requires AllDigits(s)
    ensures AllDigits(seq(zeros, _ => '0') + s) && Value(seq(zeros, _ => '0') + s) == Value(s)
    decreases zeros + |s|
  {
    var t := seq(zeros, _ => '0') + s;
    if s != "" {
      LeadingZeros(zeros, s[..|s| - 1]);
      assert t[..|t| - 1] == seq(zeros, _ => '0') + s[..|s| - 1];
    } else if zeros > 0 {
      LeadingZeros(zeros - 1, s);
      assert t[..|t| - 1] == seq(zeros - 1, _ => '0') + s;
    }
  }

  function JoinPieces(ps: seq<string>): string
    requires ps != []
  {
    if |ps| == 1 then ps[0] else ps[0] + "/" + JoinPieces(ps[1..])
  }

  lemma {:induction false} PiecesOfJoin(ps: seq<string>)
    requires ps != [] && forall p | p in ps :: '/' !in p
    ensures Pieces(JoinPieces(ps)) == ps
  {
    hide IndexOf, Pieces;
    var s := JoinPieces(ps);
    assert ps[0] in ps;
    assert forall i | 0 <= i < |ps[0]| :: s[i] == ps[0][i] && ps[0][i] in ps[0];
    IndexIs(s, '/', 0, |ps[0]|);
    PiecesAt(s, 0, |ps[0]|);
    assert s[0..] == s && s[0..|ps[0]|] == ps[0];
    if |ps| > 1 {
      assert s[|ps[0]| + 1..] == JoinPieces(ps[1..]);
      assert forall p | p in ps[1..] :: p in ps;
      PiecesOfJoin(ps[1..]);
      assert ps == [ps[0]] + ps[1..];
    }
  }

  /** Every positive int printed as the k-th component, with any leading zeros, is read back. */
  lemma PrintedNumberIsRead(ps: seq<string>, k: nat, n: nat, zeros: nat)
    requires 0 < k < |ps| && ps[0] == "" && forall p | p in ps :: '/' !in p
    requires 0 < n <= INT_MAX && ps[k] == seq(zeros, _ => '0') + Decimal(n)
    ensures Number(k, JoinPieces(ps)) == n
  {
    hide Pieces, Value, Decimal;
    PiecesOfJoin(ps);
    LeadingZeros(zeros, Decimal(n));
    ValueOfDecimal(n);
    assert JoinPieces(ps)[0] == '/';
  }

  // Nothing else is read as a number.

  function Padded(zeros: nat, n: nat): string {
    seq(zeros, _ => '0') + Decimal(n)
  }

  lemma {:induction false} ZeroDigits(s: string)
    requires AllDigits(s) && Value(s) == 0
    ensures s == seq(|s|, _ => '0')
  {
    if s != "" {
      var init := s[..|s| - 1];
      ZeroDigits(init);
      assert s == init + [s[|s| - 1]];
    }
  }

  /** Every run of digits with a value other than zero is that value printed with some leading zeros. */
  lemma {:induction false} DigitsArePrinted(s: string) returns (zeros: nat)
    requires AllDigits(s) && Value(s) > 0
    ensures s == Padded(zeros, Value(s))
  {
    var init, last := s[..|s| - 1], s[|s| - 1];
    assert s == init + [last];
    if Value(init) == 0 {
      ZeroDigits(init);
      zeros := |init|;
    } else {
      zeros := DigitsArePrinted(init);
      DecimalMore(Value(init), last);
    }
  }

  lemma DecimalMore(n: nat, c: char)
    requires n > 0 && IsDigit(c)
    ensures Decimal(10 * n + (c as int - '0' as int)) == Decimal(n) + [c]
  {
    var d := c as int - '0' as int;
    assert (10 * n + d) / 10 == n && (10 * n + d) % 10 == d;
  }

  lemma {:induction false} JoinOfPieces(s: string)
    ensures JoinPieces(Pieces(s)) == s && forall p | p in Pieces(s) :: '/' !in p
    decreases |s|
  {
    hide IndexOf, Pieces;
    var slash := IndexOf(s, '/', 0);
    var first := s[..slash];
    PiecesStep(s, slash);
    IndexOfFirst(s, '/', 0);
    assert '/' !in first by { assert forall i | 0 <= i < slash :: first[i] == s[i]; }
    if slash < |s| {
      var rest := Pieces(s[slash + 1..]);
      JoinOfPieces(s[slash + 1..]);
      assert ([first] + rest)[1..] == rest;
      assert s == first + "/" + s[slash + 1..];
    }
  }

  /** ps are pieces whose k-th is n, printed with some leading zeros. */
  ghost predicate Prints(ps: seq<string>, k: int, n: int, zeros: nat) {
    && 0 < k < |ps| && ps[0] == "" && n > 0
    && (forall p | p in ps :: '/' !in p)
    && ps[k] == Padded(zeros, n)
  }

  /** A number other than zero comes out exactly when it is an int and the text is a path whose k-th component prints
      it; in every other case the result is zero. */
  lemma NumberIff(k: int, s: string, n: int)
    requires n != 0
    ensures Number(k, s) == n <==>
      0 < n <= 2_147_483_647 && exists ps, zeros | Prints(ps, k, n, zeros) :: s == JoinPieces(ps)
  {
    hide Pieces, Value, Padded;
    if Number(k, s) == n {
      var ps := Pieces(s);
      JoinOfPieces(s);
      var zeros := DigitsArePrinted(ps[k]);
      LeadingSlash(s);
      assert Prints(ps, k, n, zeros);
    }
    forall ps, zeros | Prints(ps, k, n, zeros) && s == JoinPieces(ps) && n <= INT_MAX
      ensures Number(k, s) == n
    {
      PaddedIs(zeros, n);
      PrintedNumberIsRead(ps, k, n, zeros);
    }
  }

  lemma PaddedIs(zeros: nat, n: nat)
    ensures Padded(zeros, n) == seq(zeros, _ => '0') + Decimal(n)
  {
  }

  lemma LeadingSlash(s: string)
    requires s != "" && s[0] == '/'
    ensures Pieces(s)[0] == ""
  {
    PiecesStep(s, 0);
  }

  lemma ValueExample()
    ensures AllDigits("042") && Value("042") == 42
  {
    hide Value;
    ValueOfNone();
    ValueOfMore("", '0');
    ValueOfMore("0", '4');
    ValueOfMore("04", '2');
    assert "" + ['0'] == "0" && "0" + ['4'] == "04" && "04" + ['2'] == "042";
  }

  lemma ValueOfNone()
    ensures Value("") == 0
  {
  }

  lemma ValueOfMore(s: string, c: char)
    requires AllDigits(s) && IsDigit(c)
    ensures AllDigits(s + [c]) && Value(s + [c]) == 10 * Value(s) + (c as int - '0' as int)
  {
    assert (s + [c])[..|s|] == s;
  }
}
