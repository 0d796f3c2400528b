# apate proxy filters, modelled in Dafny

apate is a Spring Cloud Gateway add-on that lets a client reach backend
services through one encrypted envelope. Three pieces of it are modelled
here.

- **Request side** (`ProxyRequestGatewayFilterFactory`). The request filter
  reads the inbound body, decrypts it when configured, and parses it into a
  proxy descriptor (`ProxyConfig`: service, method, path, port, content
  type, headers, params). It rejects an unusable descriptor with 400. A
  usable one becomes a new outbound request, carrying:
  - the resolved HTTP method;
  - a URI re-pointed at the service host, port and path, with a query for
    `GET`;
  - merged headers;
  - the rendered parameters as the body for `POST`;
  - an overridden route.
- **Response side** (`ProxyResponseGatewayFilterFactory`). The response
  filter:
  - decodes the backend's body with the codec registered for its first
    matching `Content-Encoding` token;
  - encrypts it or passes it through;
  - re-encodes it with the first matching encoder;
  - fixes `Content-Length`.
- **Envelope cipher** (`AESUtil`). `AES/ECB/PKCS5Padding` over UTF-8 text,
  with the ciphertext carried as Base64 (RFC 4648 section 4).

The model is a set of pure functions over immutable data, one module per
concern:

| module | file | what it holds |
|---|---|---|
| `Wrappers`, `Bytes` | `wrappers.dfy`, `bytes.dfy` | `Option`, `Result`, octets |
| `Utf8` | `utf8.dfy` | `String.getBytes(UTF_8)` and `new String(bytes)` with replacement of ill-formed input |
| `Base64` | `base64.dfy` | RFC 4648 section 4 encoding; commons-codec's lenient decoding |
| `Padding` | `padding.dfy` | PKCS#5 padding (RFC 8018 section 6.1.1) for a 16-octet block |
| `Ecb` | `ecb.dfy` | ECB mode (NIST SP 800-38A section 6.1) over an abstract keyed block permutation |
| `AesUtil` | `aes_util.dfy` | the `encrypt`/`decrypt` overloads |
| `Decimal` | `decimal.dfy` | `Long.toString` and its inverse, for `Content-Length` |
| `Strings` | `strings.dfy` | `indexOf`, split and join |
| `UrlEncoding` | `url_encoding.dfy` | `URLEncoder.encode(s, "UTF-8")` and its decoding |
| `HttpHeaders` | `http_headers.dfy` | Spring `HttpHeaders` as a case-insensitive, insertion-ordered multimap |
| `Descriptor` | `descriptor.dfy` | the envelope JSON, `ProxyConfig` with its defaults, `getContentType` |
| `RequestParams` | `request_params.dfy` | `buildRequestParams` |
| `ProxyRequest` | `proxy_request.dfy` | method resolution, `buildUri`, the header merge, `modifiyRoute`, `parseBody`, `parseAndModifyBody`, `apply` |
| `ProxyResponse` | `proxy_response.dfy` | codec registries, `extractBody`, the encrypt step, `writeBody`, the length fix-up, `getHeaders` |

These pieces are parameters of the model rather than definitions:
- The AES block function is a pair of function values (`Ecb.BlockCipher`).
  The round-trip lemmas require that they invert each other for every valid
  key (`Ecb.IsPermutation`), as FIPS 197 guarantees.
- Jackson's parser and serialiser are function values returning `Option`.
  `None` stands for the exception the code catches.
- The compression codecs are function values on octet sequences, keyed by
  encoding token (`ProxyResponse.Codec`).

## Model

| member | source | states |
|---|---|---|
| Padding.Pad | src/main/java/com/sss/apate/util/AESUtil.java:24 | PKCS#5 appends 1 to 16 octets, each equal to the count, so the result is a whole number of blocks starting with the input |
| Padding.UnpadPad | src/main/java/com/sss/apate/util/AESUtil.java:24 | removing the padding restores the padded input exactly |
| Padding.PadInverse | src/main/java/com/sss/apate/util/AESUtil.java:24 | a non-empty whole-block input unpads to `m` exactly when it is the padding of `m`, so every other input is rejected as bad padding |
| Ecb.Encrypt | src/main/java/com/sss/apate/util/AESUtil.java:24 | ECB enciphering keeps the length of a block-aligned input |
| Ecb.DecryptEncrypt | src/main/java/com/sss/apate/util/AESUtil.java:24 | for a valid key, ECB deciphering inverts ECB enciphering block by block |
| Ecb.EqualBlocks | src/main/java/com/sss/apate/util/AESUtil.java:24 | equal aligned plaintext blocks give equal ciphertext blocks, since there is no IV and no chaining |
| Utf8.DecodeEncode | src/main/java/com/sss/apate/util/AESUtil.java:47 | `new String(s.getBytes(UTF_8))` is `s` for every text of Unicode scalar values, that is, every text without an unpaired surrogate |
| Utf8.EncodeAscii | src/main/java/com/sss/apate/util/AESUtil.java:53 | an ASCII text encodes to its own character codes, one octet each |
| Base64.EncodeLength | src/main/java/com/sss/apate/util/AESUtil.java:53 | Base64 output has 4 characters per started group of 3 octets |
| Base64.EncodeAlphabet | src/main/java/com/sss/apate/util/AESUtil.java:53 | Base64 output uses only the RFC 4648 alphabet and `=` |
| Base64.SextetsUtf8 | src/main/java/com/sss/apate/util/AESUtil.java:66 | decoding a string's UTF-8 octets reads the same sextets as reading its characters; non-ASCII characters contribute nothing |
| Base64.DecodeEncode | src/main/java/com/sss/apate/util/AESUtil.java:66 | the lenient Base64 decoder inverts the encoder on every octet sequence |
| AesUtil.Seal | src/main/java/com/sss/apate/util/AESUtil.java:51-52 | for a valid key, `doFinal` in encrypt mode yields `16 * (n / 16 + 1)` octets for `n` octets in |
| AesUtil.OpenSeal | src/main/java/com/sss/apate/util/AESUtil.java:67 | for a valid key, `doFinal` in decrypt mode turns a non-empty input into `m` exactly when the input is the encrypt-mode `doFinal` of `m` |
| AesUtil.OpenOutcome | src/main/java/com/sss/apate/util/AESUtil.java:67 | for a valid key, decrypt-mode `doFinal` gives nothing for an empty input, `m` for the encryption of `m`, and a bad-padding failure for every other non-empty whole-block input |
| AesUtil.EncryptBytes | src/main/java/com/sss/apate/util/AESUtil.java:50-54 | the byte overload fails exactly when the key's octets are not 16, 24 or 32 long; otherwise it yields ASCII text |
| AesUtil.Encrypt | src/main/java/com/sss/apate/util/AESUtil.java:46-48 | the string overload fails exactly on an invalid key; otherwise it yields ASCII Base64 text that decodes to the sealed UTF-8 octets of the text, `16 * (n / 16 + 1)` of them for `n` octets |
| AesUtil.DecryptDecoded | src/main/java/com/sss/apate/util/AESUtil.java:65-68 | after Base64 decoding: an invalid key fails first, then a partial block; the encryption of `m` gives the text of `m`, the empty input gives the empty text, and any other input is a bad-padding failure |
| AesUtil.Decrypt | src/main/java/com/sss/apate/util/AESUtil.java:64-69 | the string overload fails on an invalid key, then on a Base64-decoded ciphertext of partial blocks, then on bad padding exactly when the decoded octets are not an encryption; otherwise it yields the text of the plaintext octets |
| AesUtil.DecryptBytes | src/main/java/com/sss/apate/util/AESUtil.java:71-76 | the byte overload has the same outcomes as the string overload, on the Base64 decoding of its octets |
| AesUtil.DecryptOverloads | src/main/java/com/sss/apate/util/AESUtil.java:64-76 | the string and byte `decrypt` overloads agree on a string's UTF-8 octets |
| AesUtil.CiphertextLength | src/main/java/com/sss/apate/util/AESUtil.java:51-53 | the Base64-decoded ciphertext of `n` octets is `16 * (n / 16 + 1)` octets, a positive multiple of 16 |
| AesUtil.DecryptEncryptBytes | src/main/java/com/sss/apate/util/AESUtil.java:50-69 | decrypting the encryption of any octets gives their text |
| AesUtil.DecryptEncrypt | src/main/java/com/sss/apate/util/AESUtil.java:46-69 | `decrypt(encrypt(s, k), k) == s` for every valid key and every text without an unpaired surrogate |
| AesUtil.EqualPlaintextBlocks | src/main/java/com/sss/apate/util/AESUtil.java:51-53 | equal aligned 16-octet plaintext blocks encrypt to equal ciphertext blocks |
| UrlEncoding.Encode | src/main/java/com/sss/apate/filter/ProxyRequestGatewayFilterFactory.java:262 | form encoding yields only unreserved characters, `+` and `%`, so never `&` or `=`, and is no shorter than its input |
| UrlEncoding.DecodeEncode | src/main/java/com/sss/apate/filter/ProxyRequestGatewayFilterFactory.java:262 | form decoding recovers every encoded string exactly, for strings without an unpaired surrogate |
| Decimal.Format | src/main/java/com/sss/apate/filter/ProxyRequestGatewayFilterFactory.java:181 | the decimal rendering of a length is non-empty and starts with `-` exactly when the length is negative |
| Decimal.ParseFormat | src/main/java/com/sss/apate/filter/ProxyRequestGatewayFilterFactory.java:181 | the rendered length parses back to the same number |
| Strings.IndexOf | src/main/java/com/sss/apate/filter/ProxyRequestGatewayFilterFactory.java:216 | `indexOf` finds the first occurrence, or none when the character is absent |
| Strings.SplitJoin | src/main/java/com/sss/apate/filter/ProxyRequestGatewayFilterFactory.java:268-276 | splitting a join of separator-free pieces recovers the pieces |
| HttpHeaders.Find | src/main/java/com/sss/apate/filter/ProxyResponseGatewayFilterFactory.java:160-161 | a header is found at the first entry whose name matches ignoring ASCII case, and is absent only when no entry matches |
| HttpHeaders.GetPut | src/main/java/com/sss/apate/filter/ProxyRequestGatewayFilterFactory.java:181-190 | after `set`/`put` the name carries exactly the new values and every other name keeps its values |
| HttpHeaders.GetAdd | src/main/java/com/sss/apate/filter/ProxyResponseGatewayFilterFactory.java:176-181 | `add` appends one value to the name's values and changes nothing else |
| HttpHeaders.GetSetAll | src/main/java/com/sss/apate/filter/ProxyRequestGatewayFilterFactory.java:186-188 | after a run of `set`s a name carries the value of the last pair named like it, or keeps its values |
| HttpHeaders.CopyAll | src/main/java/com/sss/apate/filter/ProxyRequestGatewayFilterFactory.java:179-180 | `putAll` into a fresh map copies the headers exactly, in order |
| Descriptor.FromEnvelope | src/main/java/com/sss/apate/filter/ProxyRequestGatewayFilterFactory.java:305-312 | a field the JSON gives takes that value and an explicit `null` makes it null, for every field; an absent method defaults to `POST` and an absent port to 80; absent headers and params are empty maps; an absent service, path or content type is null |
| Descriptor.Lookup | src/main/java/com/sss/apate/filter/ProxyRequestGatewayFilterFactory.java:347 | the exact-key lookup finds a value only when some pair has exactly that key, and then the value is that of the last such pair, as a repeated JSON key overwrites |
| Descriptor.ContentType | src/main/java/com/sss/apate/filter/ProxyRequestGatewayFilterFactory.java:346-348 | the explicit content type wins; otherwise it is present exactly when a descriptor header is keyed exactly `Content-Type`, and then it is the value of the last such header |
| RequestParams.Rendered | src/main/java/com/sss/apate/filter/ProxyRequestGatewayFilterFactory.java:258-268 | non-string values are appended as their text; strings are copied, or form-encoded so that they decode back and contain no `&` or `=` |
| RequestParams.BuildRequestParams | src/main/java/com/sss/apate/filter/ProxyRequestGatewayFilterFactory.java:238-280 | no params give no value; exactly `POST` with exactly `application/json` gives the serialiser's output; there is no value exactly then, or when serialising throws |
| RequestParams.FormResult | src/main/java/com/sss/apate/filter/ProxyRequestGatewayFilterFactory.java:253-276 | outside the JSON branch the result is the `key=value` pieces in order joined by `&`, with only the loop's trailing `&` removed |
| RequestParams.TrailingAmpersand | src/main/java/com/sss/apate/filter/ProxyRequestGatewayFilterFactory.java:271-274 | the result ends in `&` exactly when the last appended value does |
| RequestParams.ParseBuilt | src/main/java/com/sss/apate/filter/ProxyRequestGatewayFilterFactory.java:256-276 | with separator-free keys and values, reading the string back recovers every key and its appended value, in order |
| RequestParams.ParseBuiltForm | src/main/java/com/sss/apate/filter/ProxyRequestGatewayFilterFactory.java:254-268 | under form encoding every string parameter reads back as its original value |
| ProxyRequest.Resolve | src/main/java/com/sss/apate/filter/ProxyRequestGatewayFilterFactory.java:167 | a name resolves only to the method spelled exactly so, and to none when no method is |
| ProxyRequest.ResolveName | src/main/java/com/sss/apate/filter/ProxyRequestGatewayFilterFactory.java:167 | every method's own name resolves to it |
| ProxyRequest.OutboundMethod | src/main/java/com/sss/apate/filter/ProxyRequestGatewayFilterFactory.java:166-169 | a known method name is kept; any other name falls back to `POST` |
| ProxyRequest.SplitPath | src/main/java/com/sss/apate/filter/ProxyRequestGatewayFilterFactory.java:215-222 | without `?` the whole path is the path; otherwise the path is the `?`-free part before the first `?`, and the rest is the query |
| ProxyRequest.PathSteps | src/main/java/com/sss/apate/filter/ProxyRequestGatewayFilterFactory.java:217-222 | the path always replaces the inbound path; a query is set exactly when the path holds `?` |
| ProxyRequest.BuildUri | src/main/java/com/sss/apate/filter/ProxyRequestGatewayFilterFactory.java:210-230 | the URI starts from the inbound request, re-pointed at the service's host, then the port, then the path before any `?` |
| ProxyRequest.OutboundHeaderValues | src/main/java/com/sss/apate/filter/ProxyRequestGatewayFilterFactory.java:177-193 | the outbound value of each header, by precedence: the content type always; then the last descriptor header; then `chunked` for a non-positive length; then the cached length; else the inbound values |
| ProxyRequest.ChunkedAlsoCarriesLength | src/main/java/com/sss/apate/filter/ProxyRequestGatewayFilterFactory.java:181-184 | a non-positive cached length leaves both `Content-Length` and `Transfer-Encoding: chunked` set, unless the descriptor overrides them |
| ProxyRequest.ModifyRoute | src/main/java/com/sss/apate/filter/ProxyRequestGatewayFilterFactory.java:289-300 | the new route keeps the old predicate and filters, takes the service as id, the new URI and the default order 0; the request URL is that URI |
| ProxyRequest.ParseBody | src/main/java/com/sss/apate/filter/ProxyRequestGatewayFilterFactory.java:130-142 | a null `encryptEnable` or a null key gives no descriptor; with encryption on, a failed decryption (bad key, partial block or bad padding) gives no descriptor and a successful one has its plain text parsed; with encryption off the body is parsed as it is |
| ProxyRequest.EncryptedEnvelope | src/main/java/com/sss/apate/filter/ProxyRequestGatewayFilterFactory.java:133-136 | an envelope encrypted with the configured key parses exactly like its plain text |
| ProxyRequest.ParseAndModifyBody | src/main/java/com/sss/apate/filter/ProxyRequestGatewayFilterFactory.java:103-121 | an empty body stores no descriptor; otherwise the parsed one is stored; a new body is produced only for a `POST` descriptor with params |
| ProxyRequest.Apply | src/main/java/com/sss/apate/filter/ProxyRequestGatewayFilterFactory.java:67-94 | no routing table or an empty one completes without forwarding; a 400 happens exactly when the descriptor is missing or lacks service, method or content type; a forward carries a routable descriptor |
| ProxyRequest.ParamsPlacement | src/main/java/com/sss/apate/filter/ProxyRequestGatewayFilterFactory.java:113-119 | params become the body only for exactly `POST`, and (as `buildUri` does at lines 224-227) the query only for exactly `GET`; any other method carries neither |
| ProxyRequest.NoParamsNoPayload | src/main/java/com/sss/apate/filter/ProxyRequestGatewayFilterFactory.java:239-242 | without params a forward has no body, and a `GET` sets a null query |
| ProxyRequest.ForwardedRequest | src/main/java/com/sss/apate/filter/ProxyRequestGatewayFilterFactory.java:150-200 | a forward carries the merged headers with the descriptor's content type, the built URI, also as the route's URI and the request URL, and the descriptor's method when it names one, else `POST` |
| ProxyResponse.RegistryBuilt | src/main/java/com/sss/apate/filter/ProxyResponseGatewayFilterFactory.java:65-68 | the registry is built exactly when no two codecs share a token; it then holds every token and maps each to the codec answering to it |
| ProxyResponse.RegistryClash | src/main/java/com/sss/apate/filter/ProxyResponseGatewayFilterFactory.java:65-68 | a failed construction names the token of the first codec whose token an earlier codec already has |
| ProxyResponse.FirstRegistered | src/main/java/com/sss/apate/filter/ProxyResponseGatewayFilterFactory.java:221-229 | the loop over encoding tokens (here `writeBody`'s; `extractBody`'s at lines 198-208 is the same) stops at the first token with a registered codec, and finds none only when no token has one |
| ProxyResponse.Select | src/main/java/com/sss/apate/filter/ProxyResponseGatewayFilterFactory.java:196-200 | the chosen codec is the one registered for the first matching `Content-Encoding` value, in header order |
| ProxyResponse.IntermediateHeaders | src/main/java/com/sss/apate/filter/ProxyResponseGatewayFilterFactory.java:132-133 | the intermediate response's content type is exactly `text/plain` |
| ProxyResponse.ExtractBody | src/main/java/com/sss/apate/filter/ProxyResponseGatewayFilterFactory.java:189-211 | an empty body gives no text; otherwise the text is the body as decoded by the first matching decoder, or the raw body when none matches |
| ProxyResponse.Transform | src/main/java/com/sss/apate/filter/ProxyResponseGatewayFilterFactory.java:136-150 | encryption off passes the text through; there is no output exactly when `encryptEnable` is null, or encryption is on and the key is null or invalid |
| ProxyResponse.WriteBody | src/main/java/com/sss/apate/filter/ProxyResponseGatewayFilterFactory.java:213-233 | the text's UTF-8 octets are passed once through the first matching encoder, or emitted unchanged when none matches |
| ProxyResponse.ContentLengthRule | src/main/java/com/sss/apate/filter/ProxyResponseGatewayFilterFactory.java:159-164 | `Content-Length` becomes the exact emitted octet count when a body is emitted and the headers lack `Transfer-Encoding` or have a length; otherwise the headers are untouched |
| ProxyResponse.ChunkedKeepsNoLength | src/main/java/com/sss/apate/filter/ProxyResponseGatewayFilterFactory.java:160-161 | a chunked response without a length never gains one |
| ProxyResponse.PassThrough | src/main/java/com/sss/apate/filter/ProxyResponseGatewayFilterFactory.java:136-144 | with encryption off and no matching codecs, a non-empty UTF-8 body goes out octet for octet |
| ProxyResponse.EncryptedBodyDecrypts | src/main/java/com/sss/apate/filter/ProxyResponseGatewayFilterFactory.java:139-141 | with encryption on and a valid key, `decrypt` of the sent body gives back the backend's text, and the body is the Base64 text one octet per character |
| ProxyResponse.FailureSendsNothing | src/main/java/com/sss/apate/filter/ProxyResponseGatewayFilterFactory.java:145-149 | a failed or unconfigured encryption sends no body and leaves the headers as they were |
| ProxyResponse.GetHeadersAccumulates | src/main/java/com/sss/apate/filter/ProxyResponseGatewayFilterFactory.java:176-181 | after `n` calls of `getHeaders` the content type carries its old values plus `n` copies of `text/plain`, and no other header changes |

## Left out

- Reactor plumbing is not modelled: `Mono`/`Flux` composition, `BodyInserters`, `CachedBodyOutputMessage`, `DataBufferUtils.join` and the hand-off to `Schedulers.parallel()`. Each pipeline is one sequential function, and a body is the concatenation of its buffers.
- `UriComponentsBuilder` is not modelled beyond the path split. The URI is kept as the list of builder calls (`ProxyRequest.UriStep`), so how `query(...)` merges with the inbound query, and that `query(null)` clears it, stay abstract.
- Jackson is not modelled. Parsing and serialising are function parameters. The request mapper turns off `FAIL_ON_IGNORED_PROPERTIES`, not `FAIL_ON_UNKNOWN_PROPERTIES`, so an envelope with an unknown field still fails to parse. That failure belongs to the abstract parser.
- The compression codecs are abstract functions on octet sequences.
- The AES rounds (FIPS 197) are left out. The block function is abstract, and its invertibility is a precondition of the round-trip lemmas.
- The shared static `Cipher` in `AESUtil` is left out. Concurrent calls can interleave `init` and `doFinal`; that is a concurrency hazard, not sequential behaviour.
- Logging, the `Config` getters and setters, the deprecated constructors and `decorate`, `getOrder`, the unused `encrypt` field of the response filter's `Config`, and `writeAndFlushWith` are not modelled. The last only flattens its input into `writeWith`.
- `new String(bytes)`, `getBytes()` without a charset, and the text codecs are assumed to use UTF-8, as the default charset. `charset` parameters on `Content-Type` are not modelled.
- `HttpHeaders.SameName` folds ASCII letters only. Spring's case-insensitive map folds with `toLowerCase(Locale)`, which also folds non-ASCII letters.
- Header values are never null in the model.
- ProxyRequest.OutboundHeaders: the cached `Content-Length` is a parameter. It is whatever the body writer left in the cached headers, or `-1` when there is none.
- ProxyResponse.WriteWith: `Content-Length` changes made by Spring's own body writer are not modelled. The headers are taken as they stand when the deferred write runs. The same header map serves for choosing the decoder and the encoder, because `exchange.getResponse()` and `getDelegate()` are the same response.
- Route metadata and the other `Route` fields the builder resets are not modelled.
- Lengths and ports are unbounded integers, so the 64-bit `long` and 32-bit `Integer` bounds are not modelled.
- Dereferencing null is not modelled as an error. That covers an unknown service (`ProxyRequestGatewayFilterFactory.java:212`), a null path (`:216`), a null port (`:213`, unboxed into `port(int)`), a missing route (`:290`) and an unreadable content type. They are preconditions of `ProxyRequest.Apply` (`Admissible`) instead.
- The request-side header merge sets both headers for a non-positive cached length: `Content-Length` and also `Transfer-Encoding: chunked`, not one instead of the other (`ProxyRequest.ChunkedAlsoCarriesLength`).
- Texts are Dafny strings, which hold Unicode scalar values only. A Java `String` can also hold an unpaired surrogate, for example from a `\uD800` escape in the envelope JSON. `getBytes(UTF_8)` (`AESUtil.java:47`) and `URLEncoder.encode` (`ProxyRequestGatewayFilterFactory.java:262`) write `?` for it, so `decrypt(encrypt(s))` and form decoding of the encoding do not give such an `s` back. `Utf8.DecodeEncode`, `AesUtil.DecryptEncrypt` and `UrlEncoding.DecodeEncode` are stated for texts without unpaired surrogates only.
- A JSON object that repeats a key becomes one map entry in Jackson, holding the last value at the first key's position. `Descriptor.Lookup` takes the last value, but the header and parameter sequences keep every pair, so a repeated parameter key is rendered twice. The model takes envelopes whose `headers` and `params` keys are distinct as the ordinary case.
