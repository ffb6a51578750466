/** Whole runs of the form decoder. */
module FormRuns {
  import opened CStrings
  import opened QuotedString
  import opened ContentDisposition
  import opened FormDecoder

  // Every run.

  /** Only the newest field can be current, and only the current field can hold a descriptor. */
  ghost predicate Inv(d: Decoder) {
    && (d.current.Some? ==> d.current.value == |d.fields| - 1)
    && (forall i | 0 <= i < |d.fields| && d.fields[i].fd.Some? :: d.current == Some(i))
  }

  lemma StepKeepsInv(d: Decoder, e: Event)
    requires Inv(d)
    ensures Inv(Step(d, e).0)
  {
    hide Lookup;
  }

  /** Events are delivered until one is refused. */
  function Run(d: Decoder, events: seq<Event>): (r: (Decoder, Outcome))
    requires Consistent(d)
    ensures Consistent(r.0)
    decreases |events|
  {
    if events == [] then (d, Ok)
    else
      var (d', rc) := Step(d, events[0]);
      if rc != Ok then (d', rc) else Run(d', events[1..])
  }

  /** Over every run, refused or not, no field but the current one holds a descriptor. */
  lemma {:induction false} RunKeepsInv(d: Decoder, events: seq<Event>)
    requires Inv(d)
    ensures Inv(Run(d, events).0)
    decreases |events|
  {
    hide Step;
    if events != [] {
      StepKeepsInv(d, events[0]);
      if Step(d, events[0]).1 == Ok {
        RunKeepsInv(Step(d, events[0]).0, events[1..]);
      }
    }
  }

  lemma {:induction false} RunConcat(d: Decoder, a: seq<Event>, b: seq<Event>)
    requires Consistent(d) && Run(d, a).1 == Ok
    ensures Run(d, a + b) == Run(Run(d, a).0, b)
    decreases |a|
  {
    hide Step;
    if a == [] {
      assert a + b == b;
    } else {
      assert (a + b)[1..] == a[1..] + b;
      RunConcat(Step(d, a[0]).0, a[1..], b);
    }
  }

  // What is refused.

  /** Which events are refused, and which one uses a current field that is not there. */
  lemma OutcomeIs(d: Decoder, e: Event)
    requires Consistent(d)
    ensures Step(d, e).1 == Fault <==>
      e.Header? && d.current.None? && !(e.name <= DISPOSITION) && e.name <= TYPE
    ensures Step(d, e).1 == Error <==>
      match e
      case Header(name, value, temp) =>
        var hasName := Lookup(value, "name").Some?;
        && name <= DISPOSITION && "form-data" <= value
        && ((hasName && d.current.Some?) ||
            (d.saveFiles && temp.None? && Lookup(value, "filename").Some? && (hasName || d.current.Some?)))
      case Begin => d.current.None? || d.pending.Some?
      case Chunk(data, written) =>
        d.current.None? || (d.fields[d.current.value].fd.Some? && written != |data|)
      case End => false
      case Unknown => true
  {
    hide Lookup;
  }

  /** A refused event changes nothing, but for a short write and for a file without a descriptor. */
  lemma RefusedUnchanged(d: Decoder, e: Event)
    requires Consistent(d) && Step(d, e).1 != Ok
    requires (e.Chunk? ==> d.current.None?) && (e.Header? ==> e.temp.Some?)
    ensures Step(d, e).0 == d
  {
    hide Lookup;
  }

  /** When the temporary file cannot be made, the form is refused; the field is there, with its file name. */
  lemma NoTemporaryFile(d: Decoder, value: string, key: string, filename: string)
    requires d.current.None? && d.saveFiles && "form-data" <= value
    requires Lookup(value, "name") == Some(key) && Lookup(value, "filename") == Some(filename)
    ensures Step(d, Header(DISPOSITION, value, None)) ==
      (d.(fields := d.fields + [NewField(key).(filename := Some(filename))], current := Some(|d.fields|)), Error)
  {
    hide Lookup;
    Replace(d.fields, NewField(key), NewField(key).(filename := Some(filename)));
  }

  /** A header name that is cut short counts as the first of the two names that it starts, down to the empty name. */
  lemma AbbreviatedHeader(d: Decoder, k: nat, value: string, temp: Option<nat>)
    requires Consistent(d)
    ensures k <= |DISPOSITION| ==>
      Step(d, Header(DISPOSITION[..k], value, temp)) == Step(d, Header("Content-Disposition", value, temp))
    ensures |"Content-"| < k <= |TYPE| ==>
      Step(d, Header(TYPE[..k], value, temp)) == Step(d, Header("Content-Type", value, temp))
  {
    hide OpenField, OpenFile, Lookup;
    assert 8 < k <= |TYPE| ==> TYPE[..k][8] == 'T' && DISPOSITION[8] == 'D';
  }

  // Descriptors that are open.

  /** The descriptor that the current field holds. */
  function Held(d: Decoder): set<nat>
    requires Consistent(d)
  {
    if d.current.Some? && d.fields[d.current.value].fd.Some? then {d.fields[d.current.value].fd.value} else {}
  }

  /** mkstemp never returns a descriptor that is open. */
  predicate FreshTemp(d: Decoder, e: Event) {
    e.Header? && e.temp.Some? ==> e.temp.value !in d.open
  }

  /** The event is a disposition without a name that opens a file while the current field already holds one. */
  predicate Overwrites(d: Decoder, e: Event)
    requires Consistent(d)
  {
    && Held(d) != {} && d.saveFiles
    && e.Header? && e.name <= DISPOSITION && "form-data" <= e.value && e.temp.Some?
    && Lookup(e.value, "name").None? && Lookup(e.value, "filename").Some?
  }

  /** The open descriptors that no field holds any more are the earlier ones and the one that an event overwrites. */
  lemma StepLeaks(d: Decoder, e: Event)
    requires Inv(d) && Held(d) <= d.open && FreshTemp(d, e)
    ensures
      var d' := Step(d, e).0;
      && Inv(d') && Held(d') <= d'.open
      && d'.open - Held(d') == d.open - Held(d) + if Overwrites(d, e) then Held(d) else {}
  {
    hide Lookup;
    StepKeepsInv(d, e);
    if e.Header? {
      HeaderLeaks(d, e);
    }
  }

  lemma HeaderLeaks(d: Decoder, e: Event)
    requires Inv(d) && Held(d) <= d.open && FreshTemp(d, e) && e.Header?
    ensures
      var d' := Step(d, e).0;
      && Held(d') <= d'.open
      && d'.open - Held(d') == d.open - Held(d) + if Overwrites(d, e) then Held(d) else {}
  {
    hide Lookup;
  }

  /** Every event of the run that is delivered brings a fresh descriptor. */
  predicate FreshTemps(d: Decoder, events: seq<Event>)
    requires Consistent(d)
    decreases |events|
  {
    events == [] ||
    (FreshTemp(d, events[0]) &&
     (Step(d, events[0]).1 == Ok ==> FreshTemps(Step(d, events[0]).0, events[1..])))
  }

  /** Some event of the run that is delivered overwrites a held descriptor. */
  predicate SomeOverwrite(d: Decoder, events: seq<Event>)
    requires Consistent(d)
    decreases |events|
  {
    events != [] &&
    (Overwrites(d, events[0]) ||
     (Step(d, events[0]).1 == Ok && SomeOverwrite(Step(d, events[0]).0, events[1..])))
  }

  lemma {:induction false} RunLeaks(d: Decoder, events: seq<Event>)
    requires Inv(d) && Held(d) <= d.open && FreshTemps(d, events)
    ensures
      var d' := Run(d, events).0;
      && Held(d') <= d'.open && d.open - Held(d) <= d'.open - Held(d')
      && (d'.open - Held(d') == d.open - Held(d) <==> !SomeOverwrite(d, events))
    decreases |events|
  {
    hide Step, Overwrites, Held, FreshTemp;
    if events != [] {
      StepLeaks(d, events[0]);
      OverwrittenIsNew(d, events[0]);
      if Step(d, events[0]).1 == Ok {
        RunLeaks(Step(d, events[0]).0, events[1..]);
      }
    }
  }

  lemma OverwrittenIsNew(d: Decoder, e: Event)
    requires Consistent(d)
    ensures Overwrites(d, e) ==> Held(d) != {}
  {
    hide Lookup;
  }

  /** Over every run, refused or not, the open descriptors are exactly the one that the current field holds, if it holds
      one, exactly when no disposition has opened a file while the current field already held one. */
  lemma OpenDescriptorsIff(saveFiles: bool, events: seq<Event>)
    requires FreshTemps(IDLE.(saveFiles := saveFiles), events)
    ensures
      var d := IDLE.(saveFiles := saveFiles);
      Run(d, events).0.open == Held(Run(d, events).0) <==> !SomeOverwrite(d, events)
  {
    hide Run, FreshTemps, SomeOverwrite;
    var d := IDLE.(saveFiles := saveFiles);
    RunLeaks(d, events);
    var d' := Run(d, events).0;
    assert d'.open - Held(d') == {} <==> d'.open == Held(d');
  }

  /** A second disposition with only a file name, in the same part, leaves the first descriptor open for good. */
  lemma DescriptorIsLost(first: nat, second: nat)
    requires first != second
    ensures
      var a := Print("form-data", [Param("name", "a"), Param("filename", "x")]);
      var b := Print("form-data", [Param("filename", "y")]);
      var events := [Header(DISPOSITION, a, Some(first)), Header(DISPOSITION, b, Some(second)), Begin, End];
      var (d, rc) := Run(IDLE.(saveFiles := true), events);
      rc == Ok && d.current == None && d.open == {first}
  {
    hide Lookup, Print, Step, Run;
    var pa, pb := [Param("name", "a"), Param("filename", "x")], [Param("filename", "y")];
    var a, b := Print("form-data", pa), Print("form-data", pb);
    PrintedLookups();
    var d0 := IDLE.(saveFiles := true);
    var events := [Header(DISPOSITION, a, Some(first)), Header(DISPOSITION, b, Some(second)), Begin, End];
    var f := NewField("a").(filename := Some("x"), fd := Some(first), file := Some(""));
    var g := f.(filename := Some("y"), fd := Some(second));
    var d1 := Decoder([f], Some(0), None, true, {first});
    var d2 := Decoder([g], Some(0), None, true, {first, second});
    var d3 := Decoder([g.(fd := None)], None, None, true, {first});
    NamedFile(d0, a, "a", "x", first);
    assert d1 == Decoder([] + [f], Some(0), None, true, {} + {first});
    SecondFile(d1, b, "y", second);
    assert d2 == Decoder([f][0 := g], Some(0), None, true, {first} + {second});
    BeginEndFile(d2, second);
    assert d3 == Decoder([g][0 := g.(fd := None)], None, None, true, {first, second} - {second});
    RunFour(d0, events);
  }

  lemma PrintedLookups()
    ensures
      var a := Print("form-data", [Param("name", "a"), Param("filename", "x")]);
      && "form-data" <= a && Lookup(a, "name") == Some("a") && Lookup(a, "filename") == Some("x")
    ensures
      var b := Print("form-data", [Param("filename", "y")]);
      && "form-data" <= b && Lookup(b, "name") == None && Lookup(b, "filename") == Some("y")
  {
    hide Lookup, Print;
    var pa, pb := [Param("name", "a"), Param("filename", "x")], [Param("filename", "y")];
    PlainNames();
    assert "filename"[0] != "name"[0];
    assert !("filename" <= "name");
    assert Unquoted("a") == "a" && Unquoted("x") == "x" && Unquoted("y") == "y";
    assert pa[1..] == [Param("filename", "x")] && pb[1..] == [];
    LookupPrinted("form-data", pa, "name");
    LookupPrinted("form-data", pa, "filename");
    LookupPrinted("form-data", pb, "name");
    LookupPrinted("form-data", pb, "filename");
    PrintStarts("form-data", pa);
    PrintStarts("form-data", pb);
  }

  lemma NamedFile(d: Decoder, value: string, key: string, filename: string, temp: nat)
    requires d.current.None? && d.saveFiles && "form-data" <= value
    requires Lookup(value, "name") == Some(key) && Lookup(value, "filename") == Some(filename)
    ensures
      var f := NewField(key).(filename := Some(filename), fd := Some(temp), file := Some(""));
      Step(d, Header(DISPOSITION, value, Some(temp))) ==
      (d.(fields := d.fields + [f], current := Some(|d.fields|), open := d.open + {temp}), Ok)
  {
    hide Lookup;
    Replace(d.fields, NewField(key), NewField(key).(filename := Some(filename), fd := Some(temp), file := Some("")));
  }

  lemma SecondFile(d: Decoder, value: string, filename: string, temp: nat)
    requires Consistent(d) && d.current.Some? && d.saveFiles && "form-data" <= value
    requires Lookup(value, "name") == None && Lookup(value, "filename") == Some(filename)
    ensures
      var f := d.fields[d.current.value].(filename := Some(filename), fd := Some(temp), file := Some(""));
      Step(d, Header(DISPOSITION, value, Some(temp))) ==
      (d.(fields := d.fields[d.current.value := f], open := d.open + {temp}), Ok)
  {
    hide Lookup;
  }

  lemma BeginEndFile(d: Decoder, fd: nat)
    requires Consistent(d) && d.current.Some? && d.pending.None? && d.fields[d.current.value].fd == Some(fd)
    ensures
      var f := d.fields[d.current.value].(fd := None);
      && Step(d, Begin) == (d, Ok)
      && Step(d, End) ==
         (d.(fields := d.fields[d.current.value := f], current := None, open := d.open - {fd}), Ok)
  {
  }

  lemma RunFour(d: Decoder, es: seq<Event>)
    requires Consistent(d) && |es| == 4
    ensures Step(d, es[0]).1 == Ok ==>
      var d1 := Step(d, es[0]).0;
      Step(d1, es[1]).1 == Ok ==>
        var d2 := Step(d1, es[1]).0;
        Step(d2, es[2]).1 == Ok ==> Run(d, es) == Step(Step(d2, es[2]).0, es[3])
  {
    hide Step;
    assert es[1..][0] == es[1] && es[1..][1..] == es[2..];
    assert es[2..][0] == es[2] && es[2..][1..] == [es[3]];
    if Step(d, es[0]).1 == Ok && Step(Step(d, es[0]).0, es[1]).1 == Ok {
      var d2 := Step(Step(d, es[0]).0, es[1]).0;
      if Step(d2, es[2]).1 == Ok {
        RunOne(Step(d2, es[2]).0, es[3]);
        assert Run(d2, es[2..]) == Run(Step(d2, es[2]).0, [es[3]]);
        assert Run(Step(d, es[0]).0, es[1..]) == Run(d2, es[2..]);
      }
    }
  }

  // Runs made of parts.

  datatype Hdr = Hdr(name: string, value: string)

  /** A part: headers around its Content-Disposition, the descriptor a temporary file would get, and its chunks. */
  datatype Part = Part(before: seq<Hdr>, disposition: string, after: seq<Hdr>, temp: nat, chunks: seq<string>)

  predicate WellFormed(p: Part) {
    && (forall h | h in p.before :: !(h.name <= DISPOSITION) && !(h.name <= TYPE))
    && "form-data" <= p.disposition && Lookup(p.disposition, "name").Some?
    && (forall h | h in p.after :: !(h.name <= DISPOSITION))
  }

  function HeaderEvents(hs: seq<Hdr>): seq<Event> {
    if hs == [] then [] else HeaderEvents(hs[..|hs| - 1]) + [Header(hs[|hs| - 1].name, hs[|hs| - 1].value, None)]
  }

  function ChunkEvents(chunks: seq<string>): seq<Event> {
    if chunks == [] then []
    else ChunkEvents(chunks[..|chunks| - 1]) + [Chunk(chunks[|chunks| - 1], |chunks[|chunks| - 1]|)]
  }

  function PartEvents(p: Part): seq<Event> {
    HeaderEvents(p.before) + [Header(DISPOSITION, p.disposition, Some(p.temp))] + HeaderEvents(p.after) + [Begin] +
    ChunkEvents(p.chunks) + [End]
  }

  function Body(chunks: seq<string>): string {
    if chunks == [] then "" else Body(chunks[..|chunks| - 1]) + chunks[|chunks| - 1]
  }

  function LastType(hs: seq<Hdr>): Option<string> {
    if hs == [] then None
    else if hs[|hs| - 1].name <= TYPE then Some(hs[|hs| - 1].value)
    else LastType(hs[..|hs| - 1])
  }

  /** The field that a part should become. */
  function FieldOf(p: Part, saveFiles: bool): FormField
    requires WellFormed(p)
  {
    var name, filename := Lookup(p.disposition, "name").value, Lookup(p.disposition, "filename");
    var body, kind := Body(p.chunks), LastType(p.after);
    if saveFiles && filename.Some? then FormField(name, None, |body|, kind, filename, Some(body), None)
    else FormField(name, Some(body), |body|, kind, None, None, None)
  }

  /** A decoder whose newest field is f and current. */
  function Working(fs: seq<FormField>, f: FormField, pending: Option<string>, saveFiles: bool): (d: Decoder)
    ensures Consistent(d)
  {
    Decoder(fs + [f], Some(|fs|), pending, saveFiles, if f.fd.Some? then {f.fd.value} else {})
  }

  lemma Replace(fs: seq<FormField>, f: FormField, g: FormField)
    ensures (fs + [f])[|fs| := g] == fs + [g]
  {
  }

  lemma {:induction false} IgnoredHeaders(d: Decoder, hs: seq<Hdr>)
    requires Consistent(d) && forall h | h in hs :: !(h.name <= DISPOSITION) && !(h.name <= TYPE)
    ensures Run(d, HeaderEvents(hs)) == (d, Ok)
  {
    if hs != [] {
      var init, last := hs[..|hs| - 1], hs[|hs| - 1];
      IgnoredHeaders(d, init);
      RunConcat(d, HeaderEvents(init), [Header(last.name, last.value, None)]);
      RunOne(d, Header(last.name, last.value, None));
    }
  }

  lemma RunOne(d: Decoder, e: Event)
    requires Consistent(d)
    ensures Run(d, [e]) == Step(d, e)
  {
    hide Step;
    assert [e][1..] == [];
    var (d', rc) := Step(d, e);
    assert rc == Ok ==> Run(d', []) == (d', Ok);
  }

  lemma {:induction false} TypeHeaders(fs: seq<FormField>, f: FormField, save: bool, hs: seq<Hdr>)
    requires f.mimeType == None && forall h | h in hs :: !(h.name <= DISPOSITION)
    ensures Run(Working(fs, f, None, save), HeaderEvents(hs)) ==
      (Working(fs, f.(mimeType := LastType(hs)), None, save), Ok)
  {
    hide Lookup;
    if hs != [] {
      var init, last := hs[..|hs| - 1], hs[|hs| - 1];
      TypeHeaders(fs, f, save, init);
      var d := Working(fs, f, None, save);
      RunConcat(d, HeaderEvents(init), [Header(last.name, last.value, None)]);
      RunOne(Run(d, HeaderEvents(init)).0, Header(last.name, last.value, None));
      Replace(fs, f.(mimeType := LastType(init)), f.(mimeType := Some(last.value)));
    }
  }

  /** What a field and the buffer look like after some chunks. */
  function Fed(fs: seq<FormField>, f: FormField, save: bool, body: string): (d: Decoder)
    ensures Consistent(d)
  {
    if f.fd.None? then Working(fs, f.(dataLen := |body|), Some(body), save)
    else Working(fs, f.(dataLen := |body|, file := Some(body)), None, save)
  }

  lemma {:induction false} FeedChunks(fs: seq<FormField>, f: FormField, save: bool, chunks: seq<string>)
    ensures Run(Fed(fs, f, save, ""), ChunkEvents(chunks)) == (Fed(fs, f, save, Body(chunks)), Ok)
  {
    if chunks != [] {
      var init, last := chunks[..|chunks| - 1], chunks[|chunks| - 1];
      FeedChunks(fs, f, save, init);
      var d := Fed(fs, f, save, Body(init));
      RunConcat(Fed(fs, f, save, ""), ChunkEvents(init), [Chunk(last, |last|)]);
      RunOne(d, Chunk(last, |last|));
      FeedOne(fs, f, save, Body(init), last);
    }
  }

  /** A write to the file that comes back short refuses the rest of the form; what it wrote is in the file. */
  lemma ShortWrite(fs: seq<FormField>, f: FormField, save: bool, chunks: seq<string>, last: string, written: nat,
                   rest: seq<Event>)
    requires f.fd.Some? && written != |last|
    ensures
      var body := Body(chunks);
      Run(Fed(fs, f, save, ""), ChunkEvents(chunks) + ([Chunk(last, written)] + rest)) ==
      (Working(fs, f.(dataLen := |body + last|, file := Some(body + Take(last, written))), None, save), Error)
  {
    hide Step, Run, ChunkEvents, Body;
    var d := Fed(fs, f, save, Body(chunks));
    var bad := Chunk(last, written);
    FeedChunks(fs, f, save, chunks);
    RunConcat(Fed(fs, f, save, ""), ChunkEvents(chunks), [bad] + rest);
    ShortStep(fs, f, save, Body(chunks), last, written);
    RunRefused(d, bad, rest);
  }

  lemma RunRefused(d: Decoder, e: Event, rest: seq<Event>)
    requires Consistent(d) && Step(d, e).1 != Ok
    ensures Run(d, [e] + rest) == Step(d, e)
  {
    hide Step;
  }

  lemma ShortStep(fs: seq<FormField>, f: FormField, save: bool, body: string, c: string, written: nat)
    requires f.fd.Some? && written != |c|
    ensures Step(Fed(fs, f, save, body), Chunk(c, written)) ==
      (Working(fs, f.(dataLen := |body + c|, file := Some(body + Take(c, written))), None, save), Error)
  {
    var g := Fed(fs, f, save, body).fields[|fs|];
    Replace(fs, g, g.(dataLen := |body + c|, file := Some(body + Take(c, written))));
  }

  lemma FeedOne(fs: seq<FormField>, f: FormField, save: bool, body: string, c: string)
    ensures Step(Fed(fs, f, save, body), Chunk(c, |c|)) == (Fed(fs, f, save, body + c), Ok)
  {
    var g := Fed(fs, f, save, body).fields[|fs|];
    Replace(fs, g, g.(dataLen := |body + c|));
    Replace(fs, g, g.(dataLen := |body + c|, file := Some(body + c)));
  }

  /** The field right after its Content-Disposition header. */
  function Opened(p: Part, save: bool): FormField
    requires WellFormed(p)
  {
    var f := NewField(Lookup(p.disposition, "name").value);
    var filename := Lookup(p.disposition, "filename");
    if save && filename.Some? then f.(filename := filename, file := Some(""), fd := Some(p.temp)) else f
  }

  lemma OpenPart(fs: seq<FormField>, p: Part, save: bool)
    requires WellFormed(p)
    ensures Step(Decoder(fs, None, None, save, {}), Header(DISPOSITION, p.disposition, Some(p.temp)))
         == (Working(fs, Opened(p, save), None, save), Ok)
  {
    hide Lookup;
    var none: set<nat> := {};
    assert none + {p.temp} == {p.temp};
    Replace(fs, NewField(Lookup(p.disposition, "name").value), Opened(p, save));
  }

  lemma BeginPart(fs: seq<FormField>, f: FormField, save: bool)
    requires f.dataLen == 0 && (f.fd.Some? ==> f.file == Some(""))
    ensures Step(Working(fs, f, None, save), Begin) == (Fed(fs, f, save, ""), Ok)
  {
  }

  lemma EndPart(fs: seq<FormField>, f: FormField, save: bool, body: string)
    ensures Step(Fed(fs, f, save, body), End) ==
      (Decoder(fs + [if f.fd.None? then f.(data := Some(body), dataLen := |body|)
                     else f.(dataLen := |body|, file := Some(body), fd := None)], None, None, save, {}), Ok)
  {
    var g := Fed(fs, f, save, body).fields[|fs|];
    Replace(fs, g, g.(data := Some(body), dataLen := |body|));
    Replace(fs, g, g.(fd := None));
    assert f.fd.Some? ==> {f.fd.value} - {f.fd.value} == {};
  }

  /** One part adds one field and leaves no current field, no pending buffer and no open descriptor. */
  lemma PartRun(fs: seq<FormField>, p: Part, save: bool)
    requires WellFormed(p)
    ensures Run(Decoder(fs, None, None, save, {}), PartEvents(p)) ==
      (Decoder(fs + [FieldOf(p, save)], None, None, save, {}), Ok)
  {
    hide Step, Run, HeaderEvents, ChunkEvents, Lookup, Body, LastType;
    var d0 := Decoder(fs, None, None, save, {});
    var e1, e2, e3 := HeaderEvents(p.before), [Header(DISPOSITION, p.disposition, Some(p.temp))], HeaderEvents(p.after);
    var e5 := ChunkEvents(p.chunks);
    var f := Opened(p, save);
    var g := f.(mimeType := LastType(p.after));
    IgnoredHeaders(d0, p.before);
    RunConcat(d0, e1, e2);
    RunOne(d0, e2[0]);
    OpenPart(fs, p, save);
    RunConcat(d0, e1 + e2, e3);
    TypeHeaders(fs, f, save, p.after);
    RunConcat(d0, e1 + e2 + e3, [Begin]);
    RunOne(Working(fs, g, None, save), Begin);
    BeginPart(fs, g, save);
    RunConcat(d0, e1 + e2 + e3 + [Begin], e5);
    FeedChunks(fs, g, save, p.chunks);
    RunConcat(d0, e1 + e2 + e3 + [Begin] + e5, [End]);
    RunOne(Fed(fs, g, save, Body(p.chunks)), End);
    EndPart(fs, g, save, Body(p.chunks));
  }

  function FormEvents(parts: seq<Part>): seq<Event> {
    if parts == [] then [] else FormEvents(parts[..|parts| - 1]) + PartEvents(parts[|parts| - 1])
  }

  function Fields(parts: seq<Part>, saveFiles: bool): (r: seq<FormField>)
    requires forall p | p in parts :: WellFormed(p)
    ensures |r| == |parts| && forall i | 0 <= i < |r| :: r[i] == FieldOf(parts[i], saveFiles)
  {
    seq(|parts|, i requires 0 <= i < |parts| && WellFormed(parts[i]) => FieldOf(parts[i], saveFiles))
  }

  /** A form becomes one field per part, in order and with duplicates kept, and the decoder is idle again. */
  lemma {:induction false} FormRun(parts: seq<Part>, saveFiles: bool)
    requires forall p | p in parts :: WellFormed(p)
    ensures Run(Decoder([], None, None, saveFiles, {}), FormEvents(parts)) ==
      (Decoder(Fields(parts, saveFiles), None, None, saveFiles, {}), Ok)
  {
    hide Run, PartEvents, FieldOf, WellFormed;
    var d := Decoder([], None, None, saveFiles, {});
    if parts == [] {
      assert Run(d, []) == (d, Ok) by { RunNone(d); }
    } else {
      var init, last := parts[..|parts| - 1], parts[|parts| - 1];
      FormRun(init, saveFiles);
      RunConcat(d, FormEvents(init), PartEvents(last));
      PartRun(Fields(init, saveFiles), last, saveFiles);
      assert Fields(parts, saveFiles) == Fields(init, saveFiles) + [FieldOf(last, saveFiles)];
    }
  }

  lemma RunNone(d: Decoder)
    requires Consistent(d)
    ensures Run(d, []) == (d, Ok)
  {
  }

  function PartsNamed(parts: seq<Part>, key: string): (r: seq<Part>)
    requires forall p | p in parts :: WellFormed(p)
    ensures forall p | p in r :: p in parts
  {
    if parts == [] then []
    else
      (if Lookup(parts[0].disposition, "name") == Some(key) then [parts[0]] else []) + PartsNamed(parts[1..], key)
  }

  lemma FieldKey(p: Part, saveFiles: bool)
    requires WellFormed(p)
    ensures Lookup(p.disposition, "name") == Some(FieldOf(p, saveFiles).key)
  {
  }

  /** Asking the decoded form for the idx-th field with a key gives the idx-th part with that name. */
  lemma {:induction false} LookupAfterRun(parts: seq<Part>, saveFiles: bool, key: string, idx: nat)
    requires forall p | p in parts :: WellFormed(p)
    ensures
      var named := PartsNamed(parts, key);
      FindField(Fields(parts, saveFiles), key, idx) ==
      if idx < |named| then Some(FieldOf(named[idx], saveFiles)) else None
  {
    hide Lookup, FieldOf, WellFormed;
    if parts != [] {
      var fields, rest := Fields(parts, saveFiles), parts[1..];
      assert forall p | p in rest :: p in parts;
      assert fields[1..] == Fields(rest, saveFiles) && fields[0] == FieldOf(parts[0], saveFiles);
      LookupAfterRun(rest, saveFiles, key, idx);
      FieldKey(parts[0], saveFiles);
      if fields[0].key == key {
        assert PartsNamed(parts, key) == [parts[0]] + PartsNamed(rest, key);
        if idx > 0 {
          LookupAfterRun(rest, saveFiles, key, idx - 1);
        }
      } else {
        assert PartsNamed(parts, key) == PartsNamed(rest, key);
      }
    }
  }

  // A part printed as a browser prints it.

  function PrintedPart(name: string, filename: Option<string>, temp: nat, chunks: seq<string>): Part {
    var params := [Param("name", name)] + if filename.Some? then [Param("filename", filename.value)] else [];
    Part([], Print("form-data", params), [], temp, chunks)
  }

  /** From the printed header to the decoded field: the key is the name without its quote characters. */
  lemma PrintedField(name: string, filename: Option<string>, temp: nat, chunks: seq<string>, saveFiles: bool)
    ensures
      var p := PrintedPart(name, filename, temp, chunks);
      && WellFormed(p)
      && FieldOf(p, saveFiles).key == Unquoted(name)
      && (saveFiles && filename.Some? ==>
           FieldOf(p, saveFiles).filename == Some(Unquoted(filename.value)) &&
           FieldOf(p, saveFiles).file == Some(Body(chunks)))
      && (!saveFiles || filename.None? ==> FieldOf(p, saveFiles).data == Some(Body(chunks)))
  {
    hide Lookup, Print, Unquoted, Body;
    var params := [Param("name", name)] + if filename.Some? then [Param("filename", filename.value)] else [];
    PlainNames();
    LookupPrinted("form-data", params, "name");
    LookupPrinted("form-data", params, "filename");
    assert "form-data" <= Print("form-data", params) by { PrintStarts("form-data", params); }
    assert params[1..] == if filename.Some? then [Param("filename", filename.value)] else [];
    assert filename.Some? ==> params[1..][1..] == [];
  }

  lemma PrintStarts(kind: string, params: seq<Param>)
    ensures kind <= Print(kind, params)
  {
  }

  lemma PlainNames()
    ensures IsName("form-data") && IsName("name") && IsName("filename")
    ensures !("form-data" <= "name") && !("form-data" <= "filename") && !("name" <= "filename")
  {
    assert "form-data"[1] != "filename"[1] && "name"[0] != "filename"[0];
  }
}
