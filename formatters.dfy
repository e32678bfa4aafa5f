/** The body formatters of src/IBodyFormater.cs: form-urlencoded, which
    joins `key=UrlEncode(value)` pairs with `&`, skipping null values and
    writing keys unencoded (unlike the WHATWG URL Standard's serializer,
    which encodes names too), and JSON. The
    URL encoder and the JSON library are not modelled: they are functions
    the model is given (`Library`), and only the decisions the formatters
    make around them are. */
module Formatters {
  import opened Basics
  import opened Streams

  /** A body object as the formatters see it. */
  datatype Obj =
    | Null
      /** a `System.String` */
    | Str(s: string)
      /** an `IDictionary`, in its enumeration order; `repr` is its `ToString()` */
    | Dict(entries: seq<Entry>, repr: string)
      /** any other object, seen only through its `ToString()` */
    | Other(repr: string)

  /** A dictionary entry; `key` is the key's `ToString()` (keys are never null). */
  datatype Entry = Entry(key: string, value: Obj)

  /** The name of the .NET type a response body is decoded into. */
  type TypeName = string

  /** `ToString()` of a non-null object; a null one reads as the empty string,
      as in string interpolation. */
  function ToText(o: Obj): string {
    match o
    case Null => ""
    case Str(s) => s
    case Dict(_, repr) => repr
    case Other(repr) => repr
  }

  /** The library code the core calls (the formatters, the request line and
      the code parse) and the model leaves abstract. */
  datatype Library = Library(
    /** `System.Net.WebUtility.UrlEncode` */
    urlEncode: string -> string,
    /** `JsonSerializer.Serialize` through a `StreamWriter`: the bytes it writes */
    jsonWrite: Obj -> seq<byte>,
    /** `JsonSerializer.Deserialize(reader)`: a generic token, or the message it throws */
    jsonToken: seq<byte> -> Result<Obj, string>,
    /** `JsonSerializer.Deserialize(reader, type)` */
    jsonTyped: (seq<byte>, TypeName) -> Result<Obj, string>,
    /** `PipeStream.ReadString`: bytes read as text with the stream's encoding */
    readString: seq<byte> -> string,
    /** the message `int.Parse` throws with for a code it rejects */
    parseFailure: Option<string> -> string)

  /** The two `IBodyFormater` implementations. */
  datatype Formatter = FormUrlFormater | JsonFormater

  /** The content type each formatter announces. */
  function ContentType(f: Formatter): (t: string)
    ensures f.FormUrlFormater? ==> t == "application/x-www-form-urlencoded"
    ensures f.JsonFormater? ==> t == "application/json"
  {
    match f
    case FormUrlFormater => "application/x-www-form-urlencoded"
    case JsonFormater => "application/json"
  }

  // ---------------------------------------------------------------------------
  // FormUrlFormater.Serialization

  /** How many entries have a non-null value: the pairs written for them. */
  function Emitted(entries: seq<Entry>): nat {
    if entries == [] then 0
    else Emitted(entries[..|entries| - 1]) + (if entries[|entries| - 1].value != Null then 1 else 0)
  }

  /** `key=UrlEncode(value)` for one entry. */
  function FormPair(e: Entry, urlEncode: string -> string): string {
    e.key + "=" + urlEncode(ToText(e.value))
  }

  /** The text the loop over the dictionary writes, entry by entry: an entry
      with a null value writes nothing, any other one writes `&` when a pair
      has already been written, then its pair. */
  function FormPairs(entries: seq<Entry>, urlEncode: string -> string): string {
    if entries == [] then ""
    else
      var done := entries[..|entries| - 1];
      var e := entries[|entries| - 1];
      if e.value == Null then FormPairs(done, urlEncode)
      else FormPairs(done, urlEncode) + (if Emitted(done) > 0 then "&" else "") + FormPair(e, urlEncode)
  }

  /** The text `Serialization(data, stream)` writes: nothing for null, the
      pairs for a dictionary, and `ToString()` verbatim for anything else. */
  function FormText(data: Obj, urlEncode: string -> string): string {
    match data
    case Null => ""
    case Dict(entries, _) => FormPairs(entries, urlEncode)
    case _ => ToText(data)
  }

  /** The pairs of the entries with a non-null value, in enumeration order. */
  function FormPieces(entries: seq<Entry>, urlEncode: string -> string): (ps: seq<string>)
    ensures |ps| == Emitted(entries)
  {
    if entries == [] then []
    else
      var done := entries[..|entries| - 1];
      var e := entries[|entries| - 1];
      FormPieces(done, urlEncode) + (if e.value != Null then [FormPair(e, urlEncode)] else [])
  }

  /** One more entry: a null value adds nothing; any other value adds its
      pair, after `&` when a pair has already been written. */
  lemma FormPairsSnoc(entries: seq<Entry>, j: nat, urlEncode: string -> string)
    requires j < |entries|
    ensures Emitted(entries[..j + 1]) == Emitted(entries[..j]) + (if entries[j].value != Null then 1 else 0)
    ensures FormPairs(entries[..j + 1], urlEncode)
         == FormPairs(entries[..j], urlEncode) + FormStep(Emitted(entries[..j]), entries[j], urlEncode)
  {
    assert entries[..j + 1][..j] == entries[..j];
  }

  /** What one entry adds to the text, given the pairs already written. */
  function FormStep(written: nat, e: Entry, urlEncode: string -> string): string {
    if e.value == Null then "" else (if written > 0 then "&" else "") + FormPair(e, urlEncode)
  }

  /** The loop writes exactly the non-null pairs, in order, joined by `&`:
      no `&` before the first pair or after the last, none for a skipped
      entry, and empty-string values are kept. */
  lemma {:induction false} FormPairsIsJoin(entries: seq<Entry>, urlEncode: string -> string)
    ensures FormPairs(entries, urlEncode) == Join("&", FormPieces(entries, urlEncode))
  {
    if entries != [] {
      var done := entries[..|entries| - 1];
      var e := entries[|entries| - 1];
      FormPairsIsJoin(done, urlEncode);
      var ps := FormPieces(done, urlEncode);
      if e.value != Null {
        var ps' := ps + [FormPair(e, urlEncode)];
        assert FormPieces(entries, urlEncode) == ps';
        assert ps'[..|ps'| - 1] == ps;
        if |ps| == 0 {
          assert FormPairs(entries, urlEncode) == FormPairs(done, urlEncode) + FormPair(e, urlEncode);
          assert Join("&", ps) == "";
        } else {
          assert FormPairs(entries, urlEncode) == FormPairs(done, urlEncode) + "&" + FormPair(e, urlEncode);
        }
      } else {
        assert FormPieces(entries, urlEncode) == ps + [];
        assert ps + [] == ps;
      }
    }
  }

  /** The body of the loop for an entry with a non-null value: `&` unless
      this is the first pair written, then `key=`, then the encoded value. */
  method WritePair(stream: PipeStream, i: nat, e: Entry, urlEncode: string -> string)
    requires e.value != Null
    modifies stream
    ensures stream.cache == old(stream.cache) + Encode(stream.encoding, FormStep(i, e, urlEncode))
  {
    var value := urlEncode(ToText(e.value));
    ghost var start := stream.cache;
    ghost var sep := if i > 0 then "&" else "";
    if i > 0 {
      stream.WriteText("&");
    } else {
      assert start + Encode(stream.encoding, sep) == start;
    }
    ghost var mid := stream.cache;
    stream.WriteText(e.key + "=");
    stream.WriteText(value);
    EncodeAppend(stream.encoding, e.key + "=", value);
    AppendAssoc(mid, Encode(stream.encoding, e.key + "="), Encode(stream.encoding, value));
    EncodeAppend(stream.encoding, sep, e.key + "=" + value);
    AppendAssoc(start, Encode(stream.encoding, sep), Encode(stream.encoding, e.key + "=" + value));
    assert FormStep(i, e, urlEncode) == sep + (e.key + "=" + value);
  }

  /** The bytes written so far grow, entry by entry, by the bytes of what
      that entry adds. */
  lemma EncodeFormPairsSnoc(encoding: char -> seq<byte>, entries: seq<Entry>, j: nat, urlEncode: string -> string)
    requires j < |entries|
    ensures Emitted(entries[..j + 1]) == Emitted(entries[..j]) + (if entries[j].value != Null then 1 else 0)
    ensures Encode(encoding, FormPairs(entries[..j + 1], urlEncode))
         == Encode(encoding, FormPairs(entries[..j], urlEncode))
            + Encode(encoding, FormStep(Emitted(entries[..j]), entries[j], urlEncode))
  {
    FormPairsSnoc(entries, j, urlEncode);
    EncodeAppend(encoding, FormPairs(entries[..j], urlEncode), FormStep(Emitted(entries[..j]), entries[j], urlEncode));
  }

  /** The `foreach` over the dictionary's keys, with the counter `i` of
      pairs written so far. */
  method SerializePairs(entries: seq<Entry>, stream: PipeStream, urlEncode: string -> string)
    modifies stream
    ensures stream.cache == old(stream.cache) + Encode(stream.encoding, FormPairs(entries, urlEncode))
  {
    ghost var start := stream.cache;
    var i := 0;
    var j := 0;
    while j < |entries|
      invariant 0 <= j <= |entries|
      invariant i == Emitted(entries[..j])
      invariant stream.cache == start + Encode(stream.encoding, FormPairs(entries[..j], urlEncode))
    {
      var e := entries[j];
      ghost var step := Encode(stream.encoding, FormStep(i, e, urlEncode));
      EncodeFormPairsSnoc(stream.encoding, entries, j, urlEncode);
      AppendAssoc(start, Encode(stream.encoding, FormPairs(entries[..j], urlEncode)), step);
      if e.value != Null {
        WritePair(stream, i, e, urlEncode);
        i := i + 1;
      } else {
        assert step == [];
        assert stream.cache == stream.cache + step;
      }
      j := j + 1;
    }
    assert entries[..j] == entries;
  }

  /** `FormUrlFormater.Serialization(data, stream)`. */
  method SerializeForm(data: Obj, stream: PipeStream, urlEncode: string -> string)
    modifies stream
    ensures stream.cache == old(stream.cache) + Encode(stream.encoding, FormText(data, urlEncode))
  {
    if data != Null {
      if data.Dict? {
        SerializePairs(data.entries, stream, urlEncode);
      } else {
        stream.WriteText(ToText(data));
      }
    }
  }

  // ---------------------------------------------------------------------------
  // JsonFormater.Serialization

  /** The object the JSON serializer is handed: none for null data, the only
      value of a dictionary with exactly one entry, otherwise the data itself. */
  function JsonPayload(data: Obj): Option<Obj> {
    if data == Null then None
    else if data.Dict? && |data.entries| == 1 then Some(data.entries[0].value)
    else Some(data)
  }

  /** `JsonFormater.Serialization(data, stream)`. */
  method SerializeJson(data: Obj, stream: PipeStream, jsonWrite: Obj -> seq<byte>)
    modifies stream
    ensures data == Null ==> stream.cache == old(stream.cache)
    ensures data.Dict? && |data.entries| == 1 ==>
              stream.cache == old(stream.cache) + jsonWrite(data.entries[0].value)
    ensures data != Null && !(data.Dict? && |data.entries| == 1) ==>
              stream.cache == old(stream.cache) + jsonWrite(data)
  {
    if data != Null {
      if data.Dict? && |data.entries| == 1 {
        var values := data.entries[0].value;
        stream.Write(jsonWrite(values));
      } else {
        stream.Write(jsonWrite(data));
      }
    }
  }

  // ---------------------------------------------------------------------------
  // The formatter seen from the request writer

  /** The bytes `Formater.Serialization(data, stream)` appends to a stream
      with the given encoding. */
  function BodyBytes(f: Formatter, data: Obj, lib: Library, encoding: char -> seq<byte>): seq<byte> {
    match f
    case FormUrlFormater => Encode(encoding, FormText(data, lib.urlEncode))
    case JsonFormater =>
      match JsonPayload(data)
      case None => []
      case Some(p) => lib.jsonWrite(p)
  }

  /** `IBodyFormater.Serialization`, dispatched on the formatter. */
  method Serialize(f: Formatter, data: Obj, stream: PipeStream, lib: Library)
    modifies stream
    ensures stream.cache == old(stream.cache) + BodyBytes(f, data, lib, stream.encoding)
  {
    match f
    case FormUrlFormater =>
      SerializeForm(data, stream, lib.urlEncode);
    case JsonFormater =>
      SerializeJson(data, stream, lib.jsonWrite);
  }

  /** A one-entry dictionary is serialized with JSON as its value alone: the
      serializer is handed the value (JSON null for a null value), never the
      dictionary. Any other non-null data is handed over as it is. */
  lemma JsonUnwrapsSingleEntry(key: string, value: Obj, repr: string, data: Obj, lib: Library, encoding: char -> seq<byte>)
    requires data != Null && !(data.Dict? && |data.entries| == 1)
    ensures BodyBytes(JsonFormater, Dict([Entry(key, value)], repr), lib, encoding) == lib.jsonWrite(value)
    ensures BodyBytes(JsonFormater, data, lib, encoding) == lib.jsonWrite(data)
  {
  }

  /** So a one-entry dictionary writes the same bytes as its bare value,
      unless that value is null or is itself a one-entry dictionary, which
      would be unwrapped once more. */
  lemma JsonSingleEntrySameAsValue(key: string, value: Obj, repr: string, lib: Library, encoding: char -> seq<byte>)
    requires value != Null && !(value.Dict? && |value.entries| == 1)
    ensures BodyBytes(JsonFormater, Dict([Entry(key, value)], repr), lib, encoding)
         == BodyBytes(JsonFormater, value, lib, encoding)
  {
  }

  /** With no value to write, neither formatter writes anything. */
  lemma NullBodyWritesNothing(f: Formatter, lib: Library, encoding: char -> seq<byte>)
    ensures BodyBytes(f, Null, lib, encoding) == []
  {
  }

  // ---------------------------------------------------------------------------
  // Deserialization

  /** `Formater.Deserialization(response, stream, type, length)` over the
      response body `buffer`: the form formatter returns the first `length`
      bytes as raw text whatever the type; the JSON formatter parses into a
      generic token when no type is given and into the type otherwise. A
      failure is the message the library throws with. */
  function Deserialize(f: Formatter, buffer: seq<byte>, bodyType: Option<TypeName>, length: nat, lib: Library): (r: Result<Obj, string>)
    requires length <= |buffer|
    ensures f.FormUrlFormater? ==> r == Success(Str(lib.readString(buffer[..length])))
    ensures f.JsonFormater? && bodyType.None? ==> r == lib.jsonToken(buffer)
    ensures f.JsonFormater? && bodyType.Some? ==> r == lib.jsonTyped(buffer, bodyType.value)
  {
    match f
    case FormUrlFormater => Success(Str(lib.readString(buffer[..length])))
    case JsonFormater =>
      if bodyType.None? then lib.jsonToken(buffer) else lib.jsonTyped(buffer, bodyType.value)
  }

  /** What each formatter does not look at: the form formatter ignores the
      requested type and reads only `length` bytes; the JSON formatter
      ignores `length` and parses everything the buffer holds. */
  lemma DeserializeIgnores(buffer: seq<byte>, t1: Option<TypeName>, t2: Option<TypeName>,
                           n1: nat, n2: nat, lib: Library)
    requires n1 <= |buffer| && n2 <= |buffer|
    ensures Deserialize(FormUrlFormater, buffer, t1, n1, lib) == Deserialize(FormUrlFormater, buffer[..n1], t2, n1, lib)
    ensures Deserialize(JsonFormater, buffer, t1, n1, lib) == Deserialize(JsonFormater, buffer, t1, n2, lib)
  {
    assert buffer[..n1][..n1] == buffer[..n1];
  }
}
