/** The proxy descriptor (`ProxyConfig`) the envelope JSON decodes to, with
    the defaults its field initialisers supply. */
module Descriptor {
  import opened Wrappers
  import HttpHeaders

  /** A parameter value as Jackson hands it over in a `Map<String, Object>`:
      a JSON string is a `String`; anything else (number, boolean, null,
      object, array) is some other object, carried here by the text its
      `toString()` gives (`null` for a JSON null). */
  datatype Value = Text(text: string) | NonText(rendering: string)

  /** The parameters in the map's iteration order, which for Jackson's
      `LinkedHashMap` is document order. */
  type Params = seq<(string, Value)>

  /** How one field appears in the envelope JSON: left out, explicitly `null`,
      or given. Jackson calls a setter only for fields that appear. */
  datatype Field<T> = Absent | Null | Given(value: T)

  /** The envelope JSON, field by field. */
  datatype Envelope = Envelope(
    service: Field<string>,
    verb: Field<string>,
    path: Field<string>,
    port: Field<int>,
    contentType: Field<string>,
    headers: Field<seq<(string, string)>>,
    params: Field<Params>)

  /** The decoded descriptor; `None` is a Java `null`. */
  datatype ProxyConfig = ProxyConfig(
    service: Option<string>,
    verb: Option<string>,
    path: Option<string>,
    port: Option<int>,
    contentType: Option<string>,
    headers: Option<seq<(string, string)>>,
    params: Option<Params>)

  const DefaultMethod: string := "POST"
  const DefaultPort: int := 80

  /** A field after decoding: its initial value unless the JSON set it. */
  function Decoded<T>(f: Field<T>, initial: Option<T>): Option<T>
  {
    match f
    case Absent => initial
    case Null => None
    case Given(v) => Some(v)
  }

  /** `mapper.readValue(body, ProxyConfig.class)` once the JSON is parsed:
      start from the field initialisers (`POST`, port 80, empty maps, the
      rest `null`) and apply a setter for each field the JSON holds. */
  function FromEnvelope(e: Envelope): (d: ProxyConfig)
    ensures e.verb.Absent? ==> d.verb == Some(DefaultMethod)
    ensures e.port.Absent? ==> d.port == Some(DefaultPort)
    ensures e.headers.Absent? ==> d.headers == Some([])
    ensures e.params.Absent? ==> d.params == Some([])
    ensures e.service.Absent? ==> d.service.None?
    ensures e.verb.Given? ==> d.verb == Some(e.verb.value)
    ensures e.verb.Null? ==> d.verb.None?
    ensures e.port.Given? ==> d.port == Some(e.port.value)
    ensures e.port.Null? ==> d.port.None?
    ensures e.service.Given? ==> d.service == Some(e.service.value)
    ensures e.service.Null? ==> d.service.None?
    ensures e.path.Given? ==> d.path == Some(e.path.value)
    ensures !e.path.Given? ==> d.path.None?
    ensures e.contentType.Given? ==> d.contentType == Some(e.contentType.value)
    ensures !e.contentType.Given? ==> d.contentType.None?
    ensures e.headers.Given? ==> d.headers == Some(e.headers.value)
    ensures e.headers.Null? ==> d.headers.None?
    ensures e.params.Given? ==> d.params == Some(e.params.value)
    ensures e.params.Null? ==> d.params.None?
  {
    ProxyConfig(
      Decoded(e.service, None),
      Decoded(e.verb, Some(DefaultMethod)),
      Decoded(e.path, None),
      Decoded(e.port, Some(DefaultPort)),
      Decoded(e.contentType, None),
      Decoded(e.headers, Some([])),
      Decoded(e.params, Some([])))
  }

  /** `getContentType()` can be evaluated: it dereferences `headers` only when
      no content type was set. */
  predicate ContentTypeReadable(d: ProxyConfig)
  {
    d.contentType.Some? || d.headers.Some?
  }

  /** `pairs[i]` is the last pair whose key is exactly `key`. */
  predicate LastWith(pairs: seq<(string, string)>, key: string, i: int)
  {
    0 <= i < |pairs| && pairs[i].0 == key && forall j :: i < j < |pairs| ==> pairs[j].0 != key
  }

  /** The value under exactly the key `key` (a plain map lookup,
      case-sensitive). When the JSON repeats a key, Jackson's `put` of the
      later value overwrites the earlier one, so the last pair wins. */
  function Lookup(pairs: seq<(string, string)>, key: string): (r: Option<string>)
    ensures r.None? <==> forall i :: 0 <= i < |pairs| ==> pairs[i].0 != key
    ensures r.Some? ==> exists i :: LastWith(pairs, key, i) && pairs[i].1 == r.value
    decreases |pairs|
  {
    if pairs == [] then None
    else
      var n := |pairs| - 1;
      if pairs[n].0 == key then
        assert LastWith(pairs, key, n);
        Some(pairs[n].1)
      else
        var rest := Lookup(pairs[..n], key);
        assert rest.Some? ==> exists i :: LastWith(pairs, key, i) && pairs[i].1 == rest.value by {
          if rest.Some? {
            var i :| LastWith(pairs[..n], key, i) && pairs[..n][i].1 == rest.value;
            assert LastWith(pairs, key, i);
          }
        }
        rest
  }

  /** `getContentType()`: the explicit content type, else the descriptor
      header stored under exactly `Content-Type` (so `content-type` does not
      count). */
  function ContentType(d: ProxyConfig): (r: Option<string>)
    requires ContentTypeReadable(d)
    ensures d.contentType.Some? ==> r == d.contentType
    ensures d.contentType.None? ==>
      (r.Some? <==> exists i :: 0 <= i < |d.headers.value| && d.headers.value[i].0 == HttpHeaders.ContentType)
    ensures d.contentType.None? && r.Some? ==>
      exists i :: LastWith(d.headers.value, HttpHeaders.ContentType, i) && d.headers.value[i].1 == r.value
  {
    if d.contentType.Some? then d.contentType else Lookup(d.headers.value, HttpHeaders.ContentType)
  }

  /** The descriptor passes the check before forwarding: service, method and
      content type are all non-null. The content type is only looked at once
      service and method are known, and then it must be readable. */
  predicate Usable(d: ProxyConfig)
  {
    d.service.Some? && d.verb.Some? && ContentTypeReadable(d) && ContentType(d).Some?
  }

  /** The parameter map is present and not empty. */
  predicate HasParams(d: ProxyConfig)
  {
    d.params.Some? && |d.params.value| > 0
  }
}
