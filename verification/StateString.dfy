/** The signed `state` parameter of the login flow: built in src/openidconnect.c, checked there, and taken apart in
    src/appauth.cpp.  The three functions have to agree on where the dots are. */
module StateString {
  import opened CStrings
  import opened Sha256Spec
  import Sha256
  import opened Sha256Example

  /** C characters are bytes. */
  function Bytes(s: string): seq<byte> {
    seq(|s|, i requires 0 <= i < |s| => (s[i] as int % 256) as byte)
  }

  /** The first 16 hexadecimal digits of the hash of secret + text. */
  function Tag(secret: string, text: string): (tag: string)
    ensures |tag| == 16 && '.' !in tag && NUL !in tag
  {
    Hex(Sha256Spec.Sha256(Bytes(secret + text)))[..16]
  }

  function Created(secret: string, salt: string): string {
    salt + "." + Tag(secret, salt)
  }

  predicate Verifies(secret: string, input: string) {
    var dot := LastIndexOf(input, '.');
    dot != -1 && Tag(secret, input[..dot]) <= input[dot + 1..]
  }

  /** Where truncate_at_second_last_dot cuts, or -1. */
  function SecondLastDot(s: string): (r: int)
    ensures -1 <= r < |s|
  {
    var last := LastIndexOf(s, '.');
    if last == -1 then -1 else LastIndexOf(s[..last], '.')
  }

  /** What is left of a state string as the redirect destination. */
  function Destination(state: string): Option<string> {
    if SecondLastDot(state) == -1 then None else Some(state[..SecondLastDot(state)])
  }

  method CreateVerifiableString(secret: string, salt: string) returns (output: string)
    ensures output == Created(secret, salt)
  {
    hide Hex, Sha256Spec.Sha256;
    var str := secret + salt;
    var hash := new char[65];
    Sha256.Sha256Buf(Bytes(str), hash);
    ghost var digits := hash[..64];
    str := "";
    hash[16] := NUL;
    assert hash[..16] == digits[..16];
    StringAtIs(hash[..], 0, 16);
    str := str + salt + "." + StringAt(hash[..], 0);
    output := str;
  }

  method VerifyString(secret: string, input: string) returns (rc: int)
    requires NUL !in input
    ensures rc == 0 <==> Verifies(secret, input)
    ensures rc == 0 || rc == -1
  {
    hide Hex, Sha256Spec.Sha256;
    var str := secret;
    var orighash := LastIndexOf(input, '.');
    if orighash == -1 {
      return -1;
    }
    str := str + input[..orighash];
    var hash := new char[65];
    Sha256.Sha256Buf(Bytes(str), hash);
    var tag := Tag(secret, input[..orighash]);
    rc := -1;
    var equal := StrNCmpEqual(input[orighash + 1..], hash[..64], 16);
    assert Take(hash[..64], 16) == tag;
    if equal {
      rc := 0;
    }
  }

  method TruncateAtSecondLastDot(str: array?<char>) returns (r: Option<nat>)
    requires str != null ==> Terminated(str[..], 0)
    modifies str
    ensures str == null ==> r == None
    ensures str != null ==>
      var b := old(str[..]);
      var cut := SecondLastDot(Text(b));
      if cut == -1 then r == None && str[..] == b else r == Some(cut + 1) && str[..] == b[cut := NUL]
  {
    if str == null {
      return None;
    }
    ghost var s := Text(str[..]);
    var p := StrEnd(str, 0, |s|);
    var lastDot, secondLastDot := None, None;
    assert s[..p] == s;
    while p != 0
      invariant 0 <= p <= |s| && secondLastDot == None && str[..] == old(str[..])
      invariant lastDot == None ==> LastIndexOf(s, '.') == LastIndexOf(s[..p], '.')
      invariant lastDot.Some? ==>
        && lastDot.value == LastIndexOf(s, '.')
        && SecondLastDot(s) == LastIndexOf(s[..p], '.')
    {
      p := p - 1;
      assert s[..p + 1][..p] == s[..p];
      if str[p] == '.' {
        if lastDot == None {
          lastDot := Some(p);
        } else {
          secondLastDot := Some(p);
          break;
        }
      }
    }
    if secondLastDot == None {
      return None;
    }
    str[secondLastDot.value] := NUL;
    return Some(secondLastDot.value + 1);
  }

  // The login flow.

  /** Where a login request asks to be sent: the posted field if it has more than four characters. */
  function SendTo(redirectTo: Option<string>): string {
    if redirectTo.Some? && |redirectTo.value| > 4 then redirectTo.value else "/"
  }

  lemma ShortDestinations()
    ensures SendTo(None) == "/" && SendTo(Some("/app")) == "/" && SendTo(Some("/apps")) == "/apps"
  {
  }

  /** The state string that the login page sends to the provider. */
  function LoginState(secret: string, destination: string, time: string): string {
    Created(secret, CText(destination + "." + time))
  }

  /** The state building of the login form's handler. */
  method LoginPost(secret: string, redirectTo: Option<string>, time: string) returns (state: string)
    ensures state == LoginState(secret, SendTo(redirectTo), time)
  {
    hide Created;
    var sendTo := "/";
    if redirectTo.Some? && |redirectTo.value| > 4 {
      sendTo := redirectTo.value;
    }
    state := CreateVerifiableString(secret, CText(sendTo + "." + time));
  }

  /** How the callback turns a state string into a redirect: None when it does not verify. */
  function Redirect(secret: string, state: string): Option<string> {
    if !Verifies(secret, state) then None
    else if Destination(state).None? then Some("")
    else Destination(state)
  }

  /** The checks of the callback handler, on the buffer that holds the state parameter. */
  method RedirectTarget(secret: string, state: array<char>) returns (r: Option<string>)
    requires Terminated(state[..], 0)
    modifies state
    ensures r == Redirect(secret, old(Text(state[..])))
  {
    hide Verifies;
    ghost var b := state[..];
    ghost var s := Text(b);
    var end := StrEnd(state, 0, |s|);
    var rc := VerifyString(secret, state[..end]);
    if rc != 0 {
      return None;
    }
    var rest := TruncateAtSecondLastDot(state);
    if rest == None {
      return Some("");
    }
    var cut := rest.value - 1;
    assert state[..cut] == s[..cut];
    StringAtIs(state[..], 0, cut);
    return Some(StringAt(state[..], 0));
  }

  lemma {:induction false} LastIndexIs(s: string, c: char, r: nat)
    requires r < |s| && s[r] == c && forall i | r < i < |s| :: s[i] != c
    ensures LastIndexOf(s, c) == r
  {
    hide LastIndexOf;
  }

  lemma DotsOfCreated(secret: string, salt: string)
    ensures LastIndexOf(Created(secret, salt), '.') == |salt|
    ensures Created(secret, salt)[..|salt|] == salt
    ensures SecondLastDot(Created(secret, salt)) == LastIndexOf(salt, '.')
  {
    hide Tag, LastIndexOf;
    var state := Created(secret, salt);
    var tag := Tag(secret, salt);
    forall i | |salt| < i < |state|
      ensures state[i] != '.'
    {
      assert state[i] == tag[i - |salt| - 1] && tag[i - |salt| - 1] in tag;
    }
    LastIndexIs(state, '.', |salt|);
  }

  /** Every created string verifies, whatever the secret and the salt. */
  lemma CreatedVerifies(secret: string, salt: string)
    ensures Verifies(secret, Created(secret, salt))
  {
    hide Tag;
    DotsOfCreated(secret, salt);
    assert Created(secret, salt)[|salt| + 1..] == Tag(secret, salt);
  }

  /** Dot-free text behind a created string does not change the verdict. */
  lemma TrailingTextAccepted(secret: string, salt: string, extra: string)
    requires '.' !in extra
    ensures Verifies(secret, Created(secret, salt) + extra)
  {
    hide Tag;
    var input := Created(secret, salt) + extra;
    var tag := Tag(secret, salt);
    assert forall i | |salt| < i < |salt| + 17 :: input[i] == tag[i - |salt| - 1] && tag[i - |salt| - 1] in tag;
    var n := |salt| + 17;
    assert forall i | n <= i < |input| :: input[i] == extra[i - n] && extra[i - n] in extra;
    LastIndexIs(input, '.', |salt|);
    assert input[..|salt|] == salt;
    assert input[|salt| + 1..] == tag + extra;
  }

  /** Verification accepts nothing but a created string with dot-free text behind it. */
  lemma VerifiesIff(secret: string, input: string)
    ensures Verifies(secret, input) <==> exists salt, extra | '.' !in extra :: input == Created(secret, salt) + extra
  {
    hide Tag;
    if Verifies(secret, input) {
      CutVerified(secret, input, LastIndexOf(input, '.'));
    }
    forall salt, extra | '.' !in extra && input == Created(secret, salt) + extra
      ensures Verifies(secret, input)
    {
      TrailingTextAccepted(secret, salt, extra);
    }
  }

  lemma CutVerified(secret: string, input: string, dot: nat)
    requires dot < |input| && input[dot] == '.' && forall i | dot < i < |input| :: input[i] != '.'
    requires Tag(secret, input[..dot]) <= input[dot + 1..]
    ensures |input| >= dot + 17 && '.' !in input[dot + 17..]
    ensures input == Created(secret, input[..dot]) + input[dot + 17..]
  {
    hide Tag;
    var text := input[dot + 1..];
    assert text == Tag(secret, input[..dot]) + text[16..];
    assert text[16..] == input[dot + 17..];
  }

  /** The callback redirects to d exactly when the state is a created string, with dot-free text behind it, whose salt
      is d, a dot and dot-free text; or, with an empty d, whose salt has no dot. */
  lemma RedirectIff(secret: string, state: string, d: string)
    ensures Redirect(secret, state) == Some(d) <==>
      exists salt, extra | '.' !in extra && SaltFor(salt, d) :: state == Created(secret, salt) + extra
  {
    hide Tag, Verifies, Created, SaltFor;
    if Verifies(secret, state) {
      VerifiesIff(secret, state);
      var salt, extra :| '.' !in extra && state == Created(secret, salt) + extra;
      RedirectOfCreated(secret, salt, extra, d);
    }
    forall salt, extra | '.' !in extra && SaltFor(salt, d) && state == Created(secret, salt) + extra
      ensures Redirect(secret, state) == Some(d)
    {
      VerifiesIff(secret, state);
      RedirectOfCreated(secret, salt, extra, d);
    }
  }

  /** The salts that name d as the destination. */
  ghost predicate SaltFor(salt: string, d: string) {
    (d == "" && '.' !in salt) || exists time | '.' !in time :: salt == d + "." + time
  }

  lemma RedirectOfCreated(secret: string, salt: string, extra: string, d: string)
    requires '.' !in extra && Verifies(secret, Created(secret, salt) + extra)
    ensures Redirect(secret, Created(secret, salt) + extra) == Some(d) <==> SaltFor(salt, d)
  {
    hide Tag, Verifies, LastIndexOf, Created;
    var state := Created(secret, salt) + extra;
    LastDots(secret, salt, extra);
    SaltCut(salt, d);
    var cut := LastIndexOf(salt, '.');
    assert cut != -1 ==> state[..cut] == state[..|salt|][..cut] == salt[..cut];
  }

  lemma LastDots(secret: string, salt: string, extra: string)
    requires '.' !in extra
    ensures
      var state := Created(secret, salt) + extra;
      |salt| < |state| && state[..|salt|] == salt && SecondLastDot(state) == LastIndexOf(salt, '.')
  {
    hide Tag, LastIndexOf;
    var state := Created(secret, salt) + extra;
    DotsOfCreated(secret, salt);
    var n := |Created(secret, salt)|;
    forall i | |salt| < i < |state|
      ensures state[i] != '.'
    {
      if i < n {
        assert state[i] == Created(secret, salt)[i];
      } else {
        assert state[i] == extra[i - n] && extra[i - n] in extra;
      }
    }
    LastIndexIs(state, '.', |salt|);
    assert state[..|salt|] == salt;
  }

  lemma SaltCut(salt: string, d: string)
    ensures var cut := LastIndexOf(salt, '.');
      SaltFor(salt, d) <==> if cut == -1 then d == "" else d == salt[..cut]
  {
    hide LastIndexOf;
    if '.' in salt {
      var cut := LastIndexOf(salt, '.');
      SaltTime(salt, cut);
      assert d == salt[..cut] ==> salt == d + "." + salt[cut + 1..];
    }
    forall time | '.' !in time && salt == d + "." + time
      ensures LastIndexOf(salt, '.') == |d| && d == salt[..|d|]
    {
      SaltParts(salt, d, time);
    }
  }

  lemma SaltParts(salt: string, d: string, time: string)
    requires '.' !in time && salt == d + "." + time
    ensures LastIndexOf(salt, '.') == |d| && salt[..|d|] == d
  {
    hide LastIndexOf;
    assert forall i | |d| < i < |salt| :: salt[i] == time[i - |d| - 1] && time[i - |d| - 1] in time;
    LastIndexIs(salt, '.', |d|);
  }

  lemma SaltTime(salt: string, cut: nat)
    requires cut < |salt| && salt[cut] == '.' && forall i | cut < i < |salt| :: salt[i] != '.'
    ensures salt == salt[..cut] + "." + salt[cut + 1..] && '.' !in salt[cut + 1..]
  {
  }

  /** The state string for the secret "ab" and the salt "c" is signed with the hash of "abc". */
  lemma KnownState()
    ensures Created("ab", "c") == "c.ba7816bf8f01cfea"
  {
    hide Hex, Sha256Spec.Sha256;
    AbcDigest();
    AbcDigits(Sha256Spec.Sha256(ABC));
    assert "ab" + "c" == "abc";
    assert Bytes("abc") == ABC;
  }

  /** The login page's state always verifies, and the callback recovers the destination exactly when the destination
      has no NUL and the part of the time that is signed has no dot. */
  lemma LoginRoundTripIff(secret: string, destination: string, time: string)
    ensures Verifies(secret, LoginState(secret, destination, time))
    ensures Redirect(secret, LoginState(secret, destination, time)) == Some(destination)
      <==> NUL !in destination && '.' !in CText(time)
  {
    hide Tag, Verifies, Created, CText, LastIndexOf;
    var salt := CText(destination + "." + time);
    CreatedVerifies(secret, salt);
    DotsOfCreated(secret, salt);
    CTextOfSalt(destination, time);
    var cut := LastIndexOf(salt, '.');
    var state := Created(secret, salt);
    assert cut != -1 ==> state[..cut] == state[..|salt|][..cut] == salt[..cut];
    if NUL !in destination {
      assert salt[|destination|] == '.';
      assert |destination| <= cut;
      assert salt[..|destination|] == destination;
      assert salt[|destination| + 1..] == CText(time);
      assert cut == |destination| <==> '.' !in CText(time) by {
        assert forall i | 0 <= i < |CText(time)| :: salt[|destination| + 1 + i] == CText(time)[i];
        assert cut > |destination| ==> CText(time)[cut - |destination| - 1] == '.';
      }
    }
  }

  /** A time with a dot moves a part of it into the destination. */
  lemma DottedTimeIsLost(secret: string)
    ensures Redirect(secret, LoginState(secret, "/", "1.5")) == Some("/.1")
  {
    hide Tag, Verifies, Created, CText, LastIndexOf;
    var salt := "/" + "." + "1.5";
    assert salt == "/.1.5" && NUL !in salt;
    WholeText(salt);
    CreatedVerifies(secret, salt);
    DotsOfCreated(secret, salt);
    LastIndexIs(salt, '.', 3);
    assert Created(secret, salt)[..3] == Created(secret, salt)[..|salt|][..3] == salt[..3] == "/.1";
  }

  lemma WholeText(s: string)
    requires NUL !in s
    ensures CText(s) == s
  {
    hide IndexOf;
    IndexOfFirst(s, NUL, 0);
  }

  lemma CTextOfSalt(destination: string, time: string)
    ensures NUL !in destination ==> CText(destination + "." + time) == destination + "." + CText(time)
    ensures NUL in destination ==> |CText(destination + "." + time)| < |destination|
  {
    hide IndexOf;
    var front := destination + ".";
    if NUL in destination {
      var all := front + time;
      IndexOfFirst(all, NUL, 0);
      var i :| 0 <= i < |destination| && destination[i] == NUL;
      assert all[i] == NUL;
    } else {
      CTextOfRest(front, time);
    }
  }

  lemma CTextOfRest(front: string, time: string)
    requires NUL !in front
    ensures CText(front + time) == front + CText(time)
  {
    hide IndexOf;
    var all, d := front + time, |front|;
    IndexOfFirst(time, NUL, 0);
    var t := IndexOf(time, NUL, 0);
    forall i | 0 <= i < d + t
      ensures all[i] != NUL
    {
      assert if i < d then all[i] == front[i] && front[i] in front else all[i] == time[i - d];
    }
    IndexIs(all, NUL, 0, d + t);
    assert all[..d + t] == front + time[..t];
  }
}
