/**
 * Stand-ins for the .NET collection types the extension helpers mutate:
 * the header collection of an HTTP request and `Dictionary<string, string>`.
 * Only the behaviour the helpers rely on is modelled.
 */
module Framework {
  import opened Wrappers

  /** ASCII case folding: an upper-case letter becomes its lower-case form. */
  function FoldChar(c: char): (f: char)
    ensures 'A' <= c <= 'Z' ==> f as int == c as int + 32
    ensures !('A' <= c <= 'Z') ==> f == c
    ensures !('A' <= f <= 'Z')
  {
    if 'A' <= c <= 'Z' then (c as int + 32) as char else c
  }

  /**
   * The key a header name is stored under. Header names are compared without
   * regard to case, so names that differ only in case share one key.
   */
  function HeaderKey(name: string): (key: string)
    ensures |key| == |name|
    ensures forall i :: 0 <= i < |name| ==> key[i] == FoldChar(name[i])
  {
    seq(|name|, i requires 0 <= i < |name| => FoldChar(name[i]))
  }

  /** Folding a name twice gives the same key as folding it once. */
  lemma HeaderKeyIdempotent(name: string)
    ensures HeaderKey(HeaderKey(name)) == HeaderKey(name)
  {
  }

  /** "X-Id" and "x-id" name the same header. */
  lemma HeaderNamesIgnoreCase()
    ensures HeaderKey("X-Id") == HeaderKey("x-id") == "x-id"
  {
  }

  /** Every key of the collection is a folded header name. */
  ghost predicate Folded(headers: map<string, seq<string>>) {
    forall key :: key in headers ==> HeaderKey(key) == key
  }

  /** The values recorded under header key `key`, in the order they were added. */
  function ValuesAt(headers: map<string, seq<string>>, key: string): seq<string> {
    if key in headers then headers[key] else []
  }

  /**
   * The headers after `Add(name, value)`: the value joins those already
   * recorded under the name, whatever case either was written in.
   */
  function Appended(headers: map<string, seq<string>>, name: string, value: string): (r: map<string, seq<string>>)
    ensures r.Keys == headers.Keys + {HeaderKey(name)}
    ensures r[HeaderKey(name)] == ValuesAt(headers, HeaderKey(name)) + [value]
    ensures forall key :: key in headers && key != HeaderKey(name) ==> r[key] == headers[key]
    ensures Folded(headers) ==> Folded(r)
  {
    HeaderKeyIdempotent(name);
    headers[HeaderKey(name) := ValuesAt(headers, HeaderKey(name)) + [value]]
  }

  /**
   * The header collection of a request: values by folded header name; a
   * header may carry several values.
   */
  class RequestHeaders {
    var Values: map<string, seq<string>>

    constructor ()
      ensures Values == map[] && Folded(Values)
    {
      Values := map[];
    }

    /** `HttpHeaders.Add(name, value)`. */
    method Add(name: string, value: string)
      modifies this
      ensures Values == Appended(old(Values), name, value)
      ensures old(Folded(Values)) ==> Folded(Values)
    {
      Values := Appended(Values, name, value);
    }
  }

  datatype HttpMethod = Get | Post

  /** An HTTP request message: method, target URI and its own header collection. */
  class RequestMessage {
    const Method: HttpMethod
    const RequestUri: string
    const Headers: RequestHeaders

    constructor (httpMethod: HttpMethod, uri: string)
      ensures Method == httpMethod && RequestUri == uri
      ensures fresh(Headers) && Headers.Values == map[]
    {
      Method := httpMethod;
      RequestUri := uri;
      Headers := new RequestHeaders();
    }
  }

  /**
   * What `Dictionary.Add(key, value)` does to the entries `entries`: a null key
   * and a key already present are rejected, anything else is inserted.
   */
  function Inserted(entries: map<string, string>, key: Option<string>, value: string): (r: Result<map<string, string>>)
    ensures key.None? ==> r == Thrown(ArgumentNull)
    ensures key.Some? && key.value in entries ==> r == Thrown(DuplicateKey)
    ensures r.Ok? <==> key.Some? && key.value !in entries
    ensures r.Ok? ==> r.value.Keys == entries.Keys + {key.value} && |r.value| == |entries| + 1
    ensures r.Ok? ==> r.value[key.value] == value
    ensures r.Ok? ==> forall k :: k in entries ==> r.value[k] == entries[k]
  {
    if key.None? then Thrown(ArgumentNull)
    else if key.value in entries then Thrown(DuplicateKey)
    else Ok(entries[key.value := value])
  }

  /** `Dictionary<string, string>`; null values are not modelled. */
  class Dictionary {
    var Entries: map<string, string>

    constructor ()
      ensures Entries == map[]
    {
      Entries := map[];
    }

    /** `Dictionary.Add`: inserts a new key, or throws and leaves the entries as they were. */
    method Add(key: Option<string>, value: string) returns (outcome: Outcome)
      modifies this
      ensures outcome.Pass? <==> Inserted(old(Entries), key, value).Ok?
      ensures outcome.Fail? ==> outcome.error == Inserted(old(Entries), key, value).error
      ensures Entries == match Inserted(old(Entries), key, value)
                         case Ok(entries) => entries
                         case Thrown(_) => old(Entries)
    {
      match Inserted(Entries, key, value)
      case Ok(entries) =>
        Entries := entries;
        outcome := Pass;
      case Thrown(e) =>
        outcome := Fail(e);
    }
  }
}
