# Verified model of the FastCGI JWT gatekeeper's hand-written machines

The gatekeeper leaves cryptographic signatures, JSON, SQL and HTTP to libraries.  What it writes by hand are small
machines over strings and buffers, and those are modelled here in Dafny and proved correct, or proved correct exactly
under a condition that a caller can check.  `dafny verify dfyconfig.toml` checks the whole project.

| file | models |
|---|---|
| `Sha256Spec.dfy`, `Sha256Constants.dfy` | SHA-256 on whole messages, as FIPS 180-4 states it, and the origin of its constants |
| `Sha256Example.dfy` | the FIPS 180-4 example "abc", round by round |
| `Sha256.dfy` | the streaming context: 64-byte buffer, chaining value, bit counter, two-branch padding |
| `Template.dfy`, `TemplateTwice.dfy` | the `<% NAME %>` template engine, and pages that are rendered twice |
| `CStrings.dfy`, `Cookies.dfy` | NUL-terminated strings in buffers; the in-place cookie splitter, its inverse, the lookups |
| `StateString.dfy` | the signed `state` parameter of the login flow |
| `QuotedString.dfy`, `ContentDisposition.dfy` | the quoted-string scanner and the header attribute lookup |
| `FormDecoder.dfy`, `FormRuns.dfy` | the multipart form decoder as an event machine, and its whole runs |
| `PathParser.dfy`, `NumberParser.dfy` | the path parser with percent-decoding; a path component read as an int |
| `UrlEncodedReader.dfy` | the read loop for URL-encoded bodies |
| `KeyStore.dfy`, `TokenCache.dfy` | the key map with refresh, and the code-to-token cache |

Code that changes things in place is modelled in place: classes with `modifies` clauses, arrays for buffers, positions
for pointers, loops with invariants.  Each such method is proved against a function on values, and the laws are lemmas
about those functions.  Clock readings, fetch results, `mkstemp` and `write` results and stream reads are inputs;
`mkstemp` is taken never to return a descriptor that is open (`FormRuns.FreshTemps`).
Recursive definitions are hidden in most proofs (`hide`) and used through one-step lemmas, which keeps them quick.

Laws that are false of the code as it is written, with the exact condition under which the code meets them:

- Rendering twice is not always rendering once.  It is, for every page and every second set of variables, if and only if
  every first-pass value with a valid name is safe (`TemplateTwice.TwoPassesIff`).
- `HTTPUtils_restore_cookies` says that it restores the header.  It does if and only if no `;` stands behind the last `=`
  (`Cookies.RestoredExactIff`); otherwise exactly that `;` stays NUL.
- The state string gives the destination back if and only if the destination has no NUL and the signed part of the time
  has no dot (`StateString.LoginRoundTripIff`, with the input `StateString.DottedTimeIsLost`).
- A quoted string is recovered if and only if it holds no quote character, because the scanner tests `"` before the
  escape state (`QuotedString.QuoteRoundTripIff`, with the input `QuotedString.QuoteIsLost`).
- An attribute lookup matches any prefix of the wanted name.  On printed headers it finds the attribute, whatever the
  values are, if and only if neither the kind nor an earlier name is a prefix of it (`ContentDisposition.LookupExactIff`,
  with the input `ContentDisposition.PrefixShadows`).  An empty field, such as the one behind a trailing `;`, matches
  every attribute (`ContentDisposition.EmptyFieldMatches`).
- `HTTPUtils_get_cookie` ignores its `idx`, because it counts down on the same entry.  On one header it gives the idx-th
  match if and only if the name is absent, or the idx-th value exists and equals the first (`Cookies.IdxMetIff`); for
  all values, if and only if `idx` is zero or the name is absent (`Cookies.IdxMetAlwaysIff`, with the input
  `Cookies.IdxIsIgnored`).
- The first-match and the last-match lookups of cookies agree, whatever the values are, if and only if the name occurs
  at most once (`Cookies.LookupsAgreeIff`).
- Only the current field's temporary file is open, over every run, if and only if no disposition without a name has
  brought a file name while the current field already held a descriptor (`FormRuns.OpenDescriptorsIff`, with the input
  `FormRuns.DescriptorIsLost`).
- A refresh of the key store keeps the source alone for a day, however the run goes on, if and only if the recorded
  write time is not earlier than the refresh (`KeyStore.OncePerDayIff`, `NextWaitsIff`, and over runs
  `RefreshesWaitIff`); a remote source records zero (`RemoteFetchedAgain`).
- The token cache serves expired tokens.  A call does, if and only if no call that missed since has swept at or after
  the entry's expiry and the call itself comes at or after it (`TokenCache.ServesExpiredIff`, with the input
  `TokenCache.ExpiredTokenReturned`).

## Model

| member | source | states |
|---|---|---|
| Sha256.HashPieces | src/minisha256.c:90-161 | for every way of cutting a message into Update calls, Init, the Updates and Final give the FIPS 180-4 hash of the whole message |
| Sha256.Context.Init | src/minisha256.c:90-103 | the streaming invariant holds for the empty message |
| Sha256.Schedule | src/minisha256.c:48-55 | the array holds the 64 words of the message schedule of section 6.2.2 |
| Sha256.Context.Transform | src/minisha256.c:43-88 | the chaining value becomes the compression of the old one with the buffer |
| Sha256.Context.Update | src/minisha256.c:105-118 | keeps the invariant: chaining value over all full blocks, buffer the remainder, counter 8 times the compressed bytes modulo 2^64; the absorbed message grows by exactly the input |
| Sha256.AbsorbByte | src/minisha256.c:110-116 | how one byte moves the invariant, with and without a full block |
| Sha256.Context.PadTo | src/minisha256.c:125-132 | the buffer holds the remainder, 0x80 and zeros up to the limit |
| Sha256.Context.AppendLength | src/minisha256.c:140-147 | the eight shifted writes are the big-endian counter |
| Sha256.PaddedTail | src/minisha256.c:120-149 | Final compresses exactly the rest of the section 5.1.1 padding: one block when fewer than 56 bytes are buffered, two otherwise |
| Sha256.Context.Final | src/minisha256.c:120-161 | writes the hash of everything absorbed and clears the context |
| Sha256.HashToString | src/minisha256.c:163-169 | the lower-case hexadecimal digits and a NUL |
| Sha256.Sha256Buf | src/minisha256.c:171-178 | the hexadecimal hash of a buffer |
| Sha256.Ep0 | src/minisha256.c:35-38 | the shifts are the rotations of section 4.1.2 |
| Sha256.Ep1 | src/minisha256.c:35-39 | the shifts are the rotations of section 4.1.2 |
| Sha256.Sig0 | src/minisha256.c:35-40 | the shifts are the rotations and shift of section 4.1.2 |
| Sha256.Sig1 | src/minisha256.c:35-41 | the shifts are the rotations and shift of section 4.1.2 |
| Sha256Spec.ChSelects | src/minisha256.c:36-36 | CH takes each bit from y where x is set and from z elsewhere |
| Sha256Spec.MajVotes | src/minisha256.c:37-37 | MAJ is the bitwise majority |
| Sha256Spec.JoinRoundTrip | src/minisha256.c:49-52 | reading a word from four bytes and writing it back gives the same four bytes |
| Sha256Spec.WordRoundTrip | src/minisha256.c:151-157 | a word that was read from four bytes of a block is written to the digest as those four bytes, in their order |
| Sha256Spec.HexAt | src/minisha256.c:163-169 | the digits of the i-th byte stand at position 2i, the high one first |
| Sha256Example.Hashed | src/minisha256.c:43-88 | the compression of the padded "abc", by the schedule and working variables that FIPS 180-4 lists |
| Sha256Example.AbcDigest | src/minisha256.c:171-178 | the 32 bytes of SHA-256 of "abc" |
| Sha256Spec.PadInjective | src/minisha256.c:120-149 | no two messages, of any lengths, have the same padded form |
| Sha256Constants.RoundConstants | src/minisha256.c:16-33 | each round constant is the first 32 fractional bits of the cube root of its prime |
| Sha256Constants.InitialHash | src/minisha256.c:95-102 | each initial word is the first 32 fractional bits of the square root of its prime |
| Template.TemplateEngine.Render | src/simpletemplate.hpp:115-167 | the scanning loop computes rendering by recursion on the text that is left |
| Template.TemplateEngine.Expand | src/simpletemplate.hpp:147-161 | what an expression becomes: value, nothing, or itself unchanged |
| Template.TrimView | src/simpletemplate.hpp:174-187 | the two loops compute Trim |
| Template.TrimIs | src/simpletemplate.hpp:174-187 | Trim removes all whitespace at both ends and nothing else |
| Template.CheckName | src/simpletemplate.hpp:202-227 | accepts exactly the identifiers |
| Template.ValidNameIs | src/simpletemplate.hpp:189-227 | a valid name is a non-empty text of underscores, letters of either case and digits that does not start with a digit |
| Template.WhitespaceIs | src/simpletemplate.hpp:170-172 | the four whitespace characters |
| TemplateTwice.RenderedWritten | src/simpletemplate.hpp:96-114 | an expression behind plain text is replaced and nothing else changes |
| TemplateTwice.NameReplaced | src/simpletemplate.hpp:96-114 | a name with whitespace on both sides becomes its value; without one it stays as written, or goes away when unknown names are not kept |
| TemplateTwice.NonNameKept | src/simpletemplate.hpp:158-161 | what is not a name stays as written |
| TemplateTwice.NothingToReplace | src/simpletemplate.hpp:109-114 | without variables every text renders to itself |
| TemplateTwice.TwoPassesAreOne | src/simpletemplate.hpp:115-167 | two passes equal one pass with both sets, the first winning, for every page, second set and mode, when first-pass values are safe |
| TemplateTwice.UnsafeValue | src/simpletemplate.hpp:115-167 | for every unsafe value, a page and a second set on which the passes disagree |
| TemplateTwice.TwoPassesIff | src/simpletemplate.hpp:115-167 | safe first-pass values are exactly the ones for which the passes always agree |
| TemplateTwice.OrdinaryValueIsSafe | src/application.cpp:170-182 | a value that is not empty, has no opening delimiter, does not start with % and does not end with < is safe |
| TemplateTwice.ServePage | src/appauth.cpp:663-666 | both stages of the login page are one rendering with the request's variable added, for safe globals |
| Cookies.ParseCookies | src/HTTPUtils.cpp:45-93 | records exactly the cookies of the text, terminates the array inside its count + 1 entries, and overwrites exactly their delimiters; a null header gives null |
| Cookies.CountSegments | src/HTTPUtils.cpp:50-56 | the first pass counts the semicolons plus one |
| Cookies.ParsedAll | src/HTTPUtils.cpp:63-87 | whichever condition stops the second pass, nothing is cut off and the entries suffice |
| Cookies.SlotsSpell | src/HTTPUtils.cpp:62-87 | the recorded positions hold the names and values of a recursive splitter that knows no positions |
| Cookies.SplitIff | src/HTTPUtils.cpp:62-87 | the splitter gives a list exactly when the text is some way of writing it: any blanks in front of each name, `=`, the value, `;` between, and any text without `=` behind |
| Cookies.EntriesDenote | src/HTTPUtils.cpp:62-87 | after parsing, each entry's pointers denote that name and that value |
| Cookies.ParsedDenotes | src/HTTPUtils.cpp:45-93 | the whole returned array denotes the reference splitter's list |
| Cookies.RestoreCookies | src/HTTPUtils.cpp:122-136 | gives the original buffer back, except for the position behind the last value |
| Cookies.ParseAndRestore | src/HTTPUtils.cpp:45-136 | the round trip in place |
| Cookies.RestoredExactIff | src/HTTPUtils.cpp:122-136 | the round trip is exact if and only if no semicolon stands behind the last equals sign |
| Cookies.TrailingSemicolonIsLost | src/HTTPUtils.cpp:131-134 | a header that is not restored |
| Cookies.GetCookie | src/HTTPUtils.cpp:99-114 | terminates and returns the first match's value for every idx |
| Cookies.IdxMetIff | src/HTTPUtils.cpp:99-114 | on one header the lookup gives the idx-th match exactly when the name is absent, or the idx-th value exists and equals the first |
| Cookies.IdxMetAlwaysIff | src/HTTPUtils.cpp:99-114 | for given names the lookup gives the idx-th match for all values exactly when idx is zero or the name is absent |
| Cookies.IdxIsIgnored | src/HTTPUtils.cpp:104-108 | in `a=1; a=2` the lookup with idx 1 gives `1` |
| Cookies.TokenFromCookies | src/jwtinterface.cpp:16-26 | returns the last match's value, or the empty string |
| Cookies.LookupsAre | src/jwtinterface.cpp:16-26 | the two lookups give the first and the last of the name's values, empty or not |
| Cookies.LookupsAgree | src/jwtinterface.cpp:16-26 | the two lookups agree when the name occurs at most once |
| Cookies.LookupsAgreeIff | src/jwtinterface.cpp:16-26 | for given names the two lookups agree for all values exactly when the name occurs at most once |
| StateString.CreateVerifiableString | src/openidconnect.c:5-25 | salt, dot, and the first 16 hexadecimal digits of the hash of secret and salt |
| StateString.VerifyString | src/openidconnect.c:27-53 | accepts exactly the inputs whose text behind the last dot starts with the 16 digits for the text in front of it |
| StateString.TruncateAtSecondLastDot | src/appauth.cpp:231-257 | cuts the buffer at the second last dot and nowhere else; leaves it alone when there are fewer than two |
| StateString.LoginPost | src/appauth.cpp:149-160 | the state signed for the posted destination, or for `/` when the field has at most four characters |
| StateString.RedirectTarget | src/appauth.cpp:350-375 | verification and truncation together give the redirect of the state |
| StateString.CreatedVerifies | src/openidconnect.c:5-53 | every created string verifies, whatever the secret and the salt |
| StateString.VerifiesIff | src/openidconnect.c:27-53 | a string verifies exactly when it is a created string with dot-free text behind it |
| StateString.RedirectIff | src/appauth.cpp:350-375 | the callback redirects to d exactly when the state is a created string, with dot-free text behind it, for d, a dot and a dot-free time (or, for an empty d, for text without a dot) |
| StateString.KnownState | src/openidconnect.c:5-25 | secret "ab" and salt "c" give the first digits of the hash of "abc" |
| StateString.TrailingTextAccepted | src/openidconnect.c:47-49 | dot-free text behind a created string is accepted |
| StateString.LoginRoundTripIff | src/appauth.cpp:149-160 | the login state always verifies, and gives the destination back exactly when it has no NUL and the signed time has no dot |
| StateString.DottedTimeIsLost | src/appauth.cpp:149-160 | a signed time with a dot: the destination that comes back is longer |
| QuotedString.AppendQuoted | src/quotedstringparser.c:243-277 | the loop computes the recursive three-state scanner |
| QuotedString.ScanChar | src/quotedstringparser.c:249-271 | the branches of one character: stop, next state, append |
| QuotedString.Matches | src/quotedstringparser.c:220-228 | membership in the delimiter string |
| QuotedString.ScanFrom | src/quotedstringparser.c:243-277 | never emits more than it consumes and never consumes more than there is |
| QuotedString.ScanStops | src/quotedstringparser.c:230-242 | the scan ends at the first delimiter or NUL outside quotes, or at the end |
| QuotedString.ScanQuoted | src/quotedstringparser.c:250-267 | scanning a quoted string emits it without its quote characters and goes on behind it, for every string |
| QuotedString.ScanBare | src/quotedstringparser.c:265-271 | outside quotes, plain text is emitted and the scan goes on behind it |
| QuotedString.ScanBetweenQuotes | src/quotedstringparser.c:250-267 | every text between quotes is emitted as what it spells, a backslash in front of any character included |
| QuotedString.ScanOpenQuote | src/quotedstringparser.c:243-277 | without a closing quote the scan takes everything |
| QuotedString.QuoteRoundTripIff | src/quotedstringparser.c:250-267 | a quoted string is recovered if and only if it holds no quote character |
| QuotedString.QuoteIsLost | src/quotedstringparser.c:250-267 | a value whose quote character is lost |
| ContentDisposition.FindAttributeValue | src/contentdisposition.c:40-73 | the retry loop terminates and computes the first field whose name is a prefix of the attribute |
| ContentDisposition.ReadFieldAt | src/contentdisposition.c:48-59 | one field: its name, its value, and where it ends |
| ContentDisposition.GetName | src/contentdisposition.c:96-98 | the lookup of name |
| ContentDisposition.GetFilename | src/contentdisposition.c:100-102 | the lookup of filename |
| ContentDisposition.LookupPrinted | src/contentdisposition.c:40-73 | in every printed header the lookup gives the first parameter that matches, without its quote characters, whatever the values contain |
| ContentDisposition.LookupWritten | src/contentdisposition.c:40-73 | the same for every way of writing the fields: any spaces, values bare or quoted, fields without `=`, empty names |
| ContentDisposition.EmptyFieldMatches | src/contentdisposition.c:60-72 | an empty field matches every attribute that no field in front of it matches |
| ContentDisposition.FirstOccurrence | src/contentdisposition.c:60-64 | among parsed parameters, the first occurrence of an attribute wins when no earlier name is a prefix of it |
| ContentDisposition.LookupExactIff | src/contentdisposition.c:40-73 | in printed headers the lookup finds the attribute's position for all quote-free values exactly when neither the kind nor an earlier name is a prefix of it |
| ContentDisposition.PrefixShadows | src/contentdisposition.c:60-60 | a shorter name shadows a longer attribute |
| FormDecoder.FormContext.Callback | src/formdecoder.c:182-296 | every event moves the decoder as the step function says, with its return code |
| FormDecoder.FormContext.HandleHeader | src/formdecoder.c:187-240 | the header branches, duplicate dispositions and the missing current field included |
| FormRuns.OutcomeIs | src/formdecoder.c:182-296 | which events are refused, and which one uses the missing current field |
| FormRuns.RefusedUnchanged | src/formdecoder.c:182-296 | a refused event changes nothing, but for a short write and a file without a descriptor |
| FormRuns.NoTemporaryFile | src/formdecoder.c:217-227 | when mkstemp fails the form is refused with the field and its file name in place |
| FormRuns.ShortWrite | src/formdecoder.c:250-275 | a short write refuses the rest of the form; the file holds what was written up to it |
| FormRuns.AbbreviatedHeader | src/formdecoder.c:187-235 | a header name that is cut short counts as the first of the two names that it starts |
| FormDecoder.FormContext.GetFieldEx | src/formdecoder.c:166-176 | the idx-th field with a key |
| FormRuns.RunKeepsInv | src/formdecoder.c:182-296 | over every run, refused or not, only the current field holds a descriptor, and only the newest field is current |
| FormRuns.StepLeaks | src/formdecoder.c:182-296 | each event loses exactly the descriptor it overwrites: the open descriptors that no field holds grow by that one and by nothing else |
| FormRuns.OpenDescriptorsIff | src/formdecoder.c:182-296 | over every run, refused or not, the open descriptors are the current field's exactly when no disposition has opened a file while that field held one |
| FormRuns.DescriptorIsLost | src/formdecoder.c:222-231 | a part with two dispositions, the second without a name, leaves a descriptor open behind its end |
| FormRuns.PartRun | src/formdecoder.c:182-296 | a part adds its field and leaves no current field, no pending buffer and no descriptor open |
| FormRuns.FormRun | src/formdecoder.c:182-296 | a form becomes one field per part, in order with duplicates kept, data the concatenation of the chunks, length their sum, on file or in memory |
| FormRuns.LookupAfterRun | src/formdecoder.c:166-176 | the idx-th field with a key is the idx-th part with that name |
| FormRuns.PrintedField | src/formdecoder.c:189-233 | from a printed disposition header to the decoded field |
| PathParser.ParsePath | src/HTTPUtils.cpp:146-182 | fails exactly on the empty path and on a malformed escape; otherwise the ranges tile the storage in order, none empty, their contents are the decoded segments, and the reserved size suffices |
| PathParser.AppendPercentDecoded | src/HTTPUtils.hpp:199-211 | accepts exactly the well-formed segments; appends the decoding, or what it is in front of the first malformed escape |
| PathParser.HexValIs | src/HTTPUtils.hpp:191-196 | exactly the digits of both letter cases have values |
| PathParser.FrontDecodes | src/HTTPUtils.hpp:199-211 | the text in front of the first malformed escape decodes, and is the whole text exactly when the text decodes |
| PathParser.ExtendedContents | src/HTTPUtils.hpp:40-57 | a new range adds its text and leaves the others |
| PathParser.EncodesIff | src/HTTPUtils.hpp:191-211 | a text decodes to v without holding a slash exactly when it is a percent-encoding of v |
| PathParser.EncodeEncodes | src/HTTPUtils.hpp:198-211 | every string has a percent-encoding: escaping just `%` and `/` is one |
| PathParser.SegmentsJoin | src/HTTPUtils.cpp:162-179 | segments joined with any extra slashes are found again |
| PathParser.ParseWritten | src/HTTPUtils.cpp:146-182 | every list of non-empty strings, encoded and joined in any way, is parsed back; only the empty path fails |
| PathParser.MeaningIff | src/HTTPUtils.cpp:146-182 | the parser gives a list exactly when the path is not empty and is some way of writing the list |
| NumberParser.ParseFirstNumber | src/appauth.cpp:494-537 | the k-th component when it is a non-empty run of digits of value at most INT_MAX, else 0 |
| NumberParser.PrintedNumberIsRead | src/appauth.cpp:478-493 | every positive int printed as component k, with leading zeros or not, is read back |
| NumberParser.NumberIff | src/appauth.cpp:478-537 | n other than 0 comes out exactly when it is a positive int and the text is a path whose k-th component prints it, with any leading zeros; everything else gives 0 |
| UrlEncodedReader.ReadBody | src/formdecoder_fastcgi.c:125-146 | for every body and every sequence of short reads, accepts exactly bodies shorter than the limit and returns the whole body with a NUL inside the allocation |
| KeyStore.JwksStore.AddKeyObject | src/JWKSVerifierStore.cpp:300-375 | adds an acceptable key under a new id and changes nothing else |
| KeyStore.JwksStore.AddDocument | src/JWKSVerifierStore.cpp:386-414 | extends the map by the document, up to an element that throws |
| KeyStore.LoadIs | src/JWKSVerifierStore.cpp:386-414 | old bindings stay; a new id gets its first acceptable occurrence |
| KeyStore.FirstKeyIs | src/JWKSVerifierStore.cpp:386-414 | the first acceptable occurrence is the least position that offers the id, in front of every element that throws |
| KeyStore.KindsTaken | src/JWKSVerifierStore.cpp:300-375 | RSA keys and EC keys on P-256 are taken, nothing else |
| KeyStore.JwksStore.FindVerifier | src/JWKSVerifierStore.cpp:416-446 | the lookup with its refresh, exceptions included |
| KeyStore.RunKeepsKeys | src/JWKSVerifierStore.cpp:300-446 | over every run a key id keeps the first verifier it was bound to |
| KeyStore.KnownKeyIsFound | src/JWKSVerifierStore.cpp:416-446 | after every run a known id is found at once, without a fetch and without change |
| KeyStore.FindIs | src/JWKSVerifierStore.cpp:416-446 | a verifier is returned exactly when the final map has the id; a fetch happens exactly on a miss at least 24 hours after the recorded time |
| KeyStore.RefreshLearns | src/JWKSVerifierStore.cpp:421-446 | a lookup that fetches learns every new key id of the document, up to an element that throws, answers from it, and records the write time of a local file, or zero |
| KeyStore.RefreshWithoutKeys | src/JWKSVerifierStore.cpp:386-439 | a document of another shape teaches nothing but is recorded; a failed fetch is not |
| KeyStore.OncePerDayIff | src/JWKSVerifierStore.cpp:421-439 | after one refresh, every later lookup that fetches comes a day later exactly when the recorded write time is not earlier than the refresh |
| KeyStore.NextWaitsIff | src/JWKSVerifierStore.cpp:416-446 | however the run goes on with a clock that does not go back, the next refresh comes a day after this one exactly under that condition |
| KeyStore.SuccessiveRefreshes | src/JWKSVerifierStore.cpp:416-446 | two successive refreshes of a run are a day after the first one's recorded time, and a day apart when each records a time not earlier than its own |
| KeyStore.RefreshesWaitIff | src/JWKSVerifierStore.cpp:416-446 | over every run, each refresh is followed by a day without one, however the run goes on, exactly when each records a time not earlier than its own |
| KeyStore.ThrownIsRetried | src/JWKSVerifierStore.cpp:424-439 | a fetch that throws leaves the recorded time alone, and the next miss fetches again |
| KeyStore.RemoteFetchedAgain | src/JWKSVerifierStore.cpp:425-436 | a remote source is fetched again by the next unknown id |
| TokenCache.CodeCache.RemoveExpired | src/appauth.cpp:46-57 | keeps exactly the unexpired entries, unchanged |
| TokenCache.CodeCache.GetTokens | src/appauth.cpp:59-121 | a request is posted exactly for an absent code; the new cache and the result |
| TokenCache.MissWithoutToken | src/appauth.cpp:71-121 | a miss that gets no token keeps just the unexpired entries, with -1 for a response that is not read and -2 for one without a token |
| TokenCache.ThirtySeconds | src/appauth.cpp:46-121 | a fetched token is kept by sweeps in less than 30 s and dropped by one after 30 s |
| TokenCache.RunKeepsInv | src/appauth.cpp:59-121 | over every run each entry holds the token fetched when it was created |
| TokenCache.ReturnedTokens | src/appauth.cpp:59-121 | after every run a returned token is the one of the latest fetch for its code |
| TokenCache.HitsNeverExpire | src/appauth.cpp:64-69 | over every run of hits nothing is fetched and every value stays, whatever the expiry times and the clock say |
| TokenCache.ExpiredIsServed | src/appauth.cpp:64-69 | a call that finds an expired entry returns its token, fetches nothing and renews the entry |
| TokenCache.ExpiredTokenReturned | src/appauth.cpp:64-69 | an entry that expired at 0 is served at every later reading |
| TokenCache.SurvivalIff | src/appauth.cpp:46-121 | over every run of calls for other codes an entry survives, unchanged, exactly when every call that misses at its turn sweeps before the entry expires |
| TokenCache.ServesExpiredIff | src/appauth.cpp:46-121 | after a returned token and any calls for other codes, the next call serves that token expired exactly when no sweep came at or after its expiry and the call does |

## Left out

- Sha256.Context.Transform: the eight-word `state` array is a sequence field that is reassigned whole, so the order of the eight additions is not captured.
- Allocation failures, `malloc` sizes beyond the array lengths stated, and freeing.
- JWT decoding, signature checks, authorisation, and the building of RSA and EC keys: a verifier is a value attached to a key id, and `built` says whether its material was usable.
- JSON parsing: documents are given as their key objects; a document object without `keys` and a response object without `id_token` dereference the end of a map in the source and are not modelled.
- The store manager's map of stores (`get_or_create_store`, `find_store`, `init_store`) and the backing file: map insertion only.
- `consume`, `consume_read_ex` and `consume_read`: one-step reads of a parsed path.
- `formdecoder_getfield`, `formdecoder_setfield`, `formdecoder_takefieldvalue` and the disposal functions: bookkeeping on the field list.
- The MIME decoder that produces the events, the query-string decoder, dynstring, simplemap and time formatting: library code that is not part of this model; strings and lists stand for them.
- URL-encoding of the state parameter in the provider's redirect, HTML page assembly, request routing, SQL access and file listing.
- `qsp_callbacker`, `qsp_inplace` and `qsp_inplace_commandline`: not called by the rest.
- `find_str_after_semicolon` and `getstringafterattributename`: not called.
