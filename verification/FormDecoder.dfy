/** The multipart form decoder of src/formdecoder.c, as the machine that the MIME decoder's events drive. */
module FormDecoder {
  import opened CStrings
  import opened ContentDisposition

  /** A decoded field.  `fd` is the descriptor that the field holds, `file` what was written to the temporary file. */
  datatype FormField = FormField(
    key: string,
    data: Option<string>,
    dataLen: nat,
    mimeType: Option<string>,
    filename: Option<string>,
    file: Option<string>,
    fd: Option<nat>)

  /** An event; `temp` is the descriptor that mkstemp would give, `written` the count that write would return. */
  datatype Event =
    | Header(name: string, value: string, temp: Option<nat>)
    | Begin
    | Chunk(data: string, written: nat)
    | End
    | Unknown

  /** What the callback returns; Fault is a use of the missing current field. */
  datatype Outcome = Ok | Error | Fault

  /** The decoder, with the temporary-file descriptors it has opened and not closed. */
  datatype Decoder = Decoder(
    fields: seq<FormField>,
    current: Option<nat>,
    pending: Option<string>,
    saveFiles: bool,
    open: set<nat>)

  const IDLE := Decoder([], None, None, false, {})

  const DISPOSITION := "Content-Disposition"
  const TYPE := "Content-Type"

  predicate Consistent(d: Decoder) {
    d.current.Some? ==> d.current.value < |d.fields|
  }

  function SetCurrent(d: Decoder, f: FormField): Decoder
    requires Consistent(d) && d.current.Some?
  {
    d.(fields := d.fields[d.current.value := f])
  }

  function NewField(key: string): FormField {
    FormField(key, None, 0, None, None, None, None)
  }

  /** The first half of a form-data disposition: the name opens a field. */
  function OpenField(d: Decoder, name: Option<string>): (Decoder, Outcome) {
    if name.None? then (d, Ok)
    else if d.current.Some? then (d, Error)
    else (d.(fields := d.fields + [NewField(name.value)], current := Some(|d.fields|)), Ok)
  }

  /** The second half: a file name makes the current field a file. */
  function OpenFile(d: Decoder, filename: Option<string>, temp: Option<nat>): (Decoder, Outcome)
    requires Consistent(d)
  {
    if d.current.None? || filename.None? || !d.saveFiles then (d, Ok)
    else
      var f := d.fields[d.current.value].(filename := filename);
      if temp.None? then (SetCurrent(d, f), Error)
      else (SetCurrent(d, f.(fd := temp, file := Some(""))).(open := d.open + {temp.value}), Ok)
  }

  function OnHeader(d: Decoder, name: string, value: string, temp: Option<nat>): (Decoder, Outcome)
    requires Consistent(d)
  {
    if name <= DISPOSITION then
      if "form-data" <= value then
        var (d', rc) := OpenField(d, Lookup(value, "name"));
        if rc != Ok then (d', rc) else OpenFile(d', Lookup(value, "filename"), temp)
      else (d, Ok)
    else if name <= TYPE then
      if d.current.None? then (d, Fault)
      else (SetCurrent(d, d.fields[d.current.value].(mimeType := Some(value))), Ok)
    else (d, Ok)
  }

  function OnBegin(d: Decoder): (Decoder, Outcome)
    requires Consistent(d)
  {
    if d.current.None? || d.pending.Some? then (d, Error)
    else if d.fields[d.current.value].fd.None? then (d.(pending := Some("")), Ok)
    else (d, Ok)
  }

  function Buffered(d: Decoder): string {
    if d.pending.Some? then d.pending.value else ""
  }

  function OnChunk(d: Decoder, data: string, written: nat): (Decoder, Outcome)
    requires Consistent(d)
  {
    if d.current.None? then (d, Error)
    else
      var f := d.fields[d.current.value].(dataLen := d.fields[d.current.value].dataLen + |data|);
      if f.fd.None? then (SetCurrent(d, f).(pending := Some(Buffered(d) + data)), Ok)
      else
        var before := if f.file.Some? then f.file.value else "";
        var d' := SetCurrent(d, f.(file := Some(before + Take(data, written))));
        (d', if written == |data| then Ok else Error)
  }

  function OnEnd(d: Decoder): (Decoder, Outcome)
    requires Consistent(d)
  {
    if d.current.None? then (d, Ok)
    else
      var f := d.fields[d.current.value];
      if f.fd.None? then
        var d' := SetCurrent(d, f.(data := Some(Buffered(d)), dataLen := |Buffered(d)|));
        (d'.(current := None, pending := None), Ok)
      else
        (SetCurrent(d, f.(fd := None)).(current := None, open := d.open - {f.fd.value}), Ok)
  }

  function Step(d: Decoder, e: Event): (r: (Decoder, Outcome))
    requires Consistent(d)
    ensures Consistent(r.0)
  {
    match e
    case Header(name, value, temp) => OnHeader(d, name, value, temp)
    case Begin => OnBegin(d)
    case Chunk(data, written) => OnChunk(d, data, written)
    case End => OnEnd(d)
    case Unknown => (d, Error)
  }

  /** The callback object. */
  class FormContext {
    var fields: seq<FormField>
    var current: Option<nat>
    var pending: Option<string>
    var saveFiles: bool
    /** The descriptors that the process holds for temporary files. */
    var open: set<nat>

    function Model(): Decoder
      reads this
    {
      Decoder(fields, current, pending, saveFiles, open)
    }

    ghost predicate Valid()
      reads this
    {
      Consistent(Model())
    }

    constructor ()
      ensures Model() == IDLE && Valid()
    {
      fields, current, pending, saveFiles, open := [], None, None, false, {};
    }

    /** The Content-Disposition and Content-Type branches. */
    method HandleHeader(name: string, value: string, temp: Option<nat>) returns (rc: Outcome)
      requires Valid() && NUL !in value
      modifies this
      ensures Valid() && (Model(), rc) == old(OnHeader(Model(), name, value, temp))
    {
      hide Lookup, Take;
      TakePrefix(name, DISPOSITION);
      TakePrefix(name, TYPE);
      TakePrefix("form-data", value);
      var isDisposition := StrNCmpEqual(name, DISPOSITION, |name|);
      if isDisposition {
        var isFormData := StrNCmpEqual(value, "form-data", 9);
        if isFormData {
          var fieldName := GetName(value);
          if fieldName.Some? {
            if current.Some? {
              return Error;
            }
            fields := fields + [NewField(fieldName.value)];
            current := Some(|fields| - 1);
          }
          var filename := GetFilename(value);
          if current.Some? && filename.Some? && saveFiles {
            var f := fields[current.value].(filename := filename);
            if temp.None? {
              fields := fields[current.value := f];
              return Error;
            }
            open := open + {temp.value};
            fields := fields[current.value := f.(fd := temp, file := Some(""))];
          }
        }
      } else {
        var isType := StrNCmpEqual(name, TYPE, |name|);
        if isType {
          if current.None? {
            return Fault;
          }
          fields := fields[current.value := fields[current.value].(mimeType := Some(value))];
        }
      }
      return Ok;
    }

    method Callback(e: Event) returns (rc: Outcome)
      requires Valid() && (e.Header? ==> NUL !in e.value)
      modifies this
      ensures Valid() && (Model(), rc) == old(Step(Model(), e))
    {
      hide OnHeader;
      match e {
        case Header(name, value, temp) =>
          rc := HandleHeader(name, value, temp);
        case Begin =>
          if current.None? {
            return Error;
          }
          if pending.Some? {
            return Error;
          }
          if fields[current.value].fd.None? {
            pending := Some("");
          }
          rc := Ok;
        case Chunk(data, written) =>
          if current.None? {
            return Error;
          }
          var f := fields[current.value];
          f := f.(dataLen := f.dataLen + |data|);
          if f.fd.None? {
            fields := fields[current.value := f];
            pending := Some((if pending.Some? then pending.value else "") + data);
          } else {
            var before := if f.file.Some? then f.file.value else "";
            fields := fields[current.value := f.(file := Some(before + Take(data, written)))];
            if written != |data| {
              return Error;
            }
          }
          rc := Ok;
        case End =>
          if current.Some? {
            var f := fields[current.value];
            if f.fd.None? {
              var detached := if pending.Some? then pending.value else "";
              fields := fields[current.value := f.(dataLen := |detached|, data := Some(detached))];
              pending := None;
            } else {
              open := open - {f.fd.value};
              fields := fields[current.value := f.(fd := None)];
            }
            current := None;
          }
          rc := Ok;
        case Unknown =>
          rc := Error;
      }
    }

    /** The idx-th field with a key. */
    method GetFieldEx(key: string, idx: nat) returns (r: Option<FormField>)
      ensures r == FindField(fields, key, idx)
    {
      var i, left := 0, idx;
      assert fields[0..] == fields;
      while i < |fields|
        invariant i <= |fields|
        invariant FindField(fields[i..], key, left) == FindField(fields, key, idx)
      {
        assert fields[i..][1..] == fields[i + 1..];
        if fields[i].key == key {
          if left == 0 {
            return Some(fields[i]);
          }
          left := left - 1;
        }
        i := i + 1;
      }
      return None;
    }
  }

  function FindField(fields: seq<FormField>, key: string, idx: nat): Option<FormField> {
    if fields == [] then None
    else if fields[0].key != key then FindField(fields[1..], key, idx)
    else if idx == 0 then Some(fields[0])
    else FindField(fields[1..], key, idx - 1)
  }
}
