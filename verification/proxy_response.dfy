/** The response side of the proxy: the backend's body is decoded according
    to its `Content-Encoding`, encrypted or passed through, re-encoded, and
    written with a corrected `Content-Length`. */
module ProxyResponse {
  import opened Wrappers
  import opened Bytes
  import opened HttpHeaders
  import Decimal
  import AesUtil
  import Ecb
  import Utf8

  // ---------------------------------------------------------------------
  // Codec registries

  /** A `MessageBodyDecoder` or `MessageBodyEncoder`: the encoding token it
      answers to, and what it does to a whole body. */
  datatype Codec = Codec(encodingType: string, apply: seq<byte> -> seq<byte>)

  /** Codecs by encoding token, looked up by exact key. */
  type Registry = map<string, Codec>

  function Tokens(codecs: seq<Codec>): set<string>
  {
    set i | 0 <= i < |codecs| :: codecs[i].encodingType
  }

  predicate DistinctTokens(codecs: seq<Codec>)
  {
    forall i, j :: 0 <= i < j < |codecs| ==> codecs[i].encodingType != codecs[j].encodingType
  }

  /** `codecs.stream().collect(Collectors.toMap(encodingType, identity()))`
      over the codecs in iteration order: each codec is put under its token,
      and a token already taken throws. */
  function BuildRegistry(codecs: seq<Codec>): Result<Registry, string>
    decreases |codecs|
  {
    if codecs == [] then Success(map[])
    else
      var last := codecs[|codecs| - 1];
      match BuildRegistry(codecs[..|codecs| - 1])
      case Failure(t) => Failure(t)
      case Success(m) =>
        if last.encodingType in m then Failure(last.encodingType)
        else Success(m[last.encodingType := last])
  }

  lemma TokensSnoc(codecs: seq<Codec>)
    requires codecs != []
    ensures Tokens(codecs) == Tokens(codecs[..|codecs| - 1]) + {codecs[|codecs| - 1].encodingType}
  {
    var init := codecs[..|codecs| - 1];
    assert forall i :: 0 <= i < |init| ==> codecs[i] == init[i];
  }

  lemma DistinctSnoc(codecs: seq<Codec>)
    requires codecs != []
    ensures DistinctTokens(codecs) <==>
      DistinctTokens(codecs[..|codecs| - 1]) && codecs[|codecs| - 1].encodingType !in Tokens(codecs[..|codecs| - 1])
  {
    var n := |codecs| - 1;
    var init := codecs[..n];
    assert forall i :: 0 <= i < n ==> codecs[i] == init[i];
    if DistinctTokens(init) && codecs[n].encodingType !in Tokens(init) {
      forall i, j | 0 <= i < j < |codecs|
        ensures codecs[i].encodingType != codecs[j].encodingType
      {
        if j == n {
          assert codecs[i].encodingType == init[i].encodingType;
        }
      }
    }
  }

  lemma SnocValues(codecs: seq<Codec>, m: Registry)
    requires codecs != [] && codecs[|codecs| - 1].encodingType !in m
    requires forall i :: 0 <= i < |codecs| - 1 ==> codecs[i].encodingType in m && m[codecs[i].encodingType] == codecs[i]
    ensures forall i :: 0 <= i < |codecs| ==>
      m[codecs[|codecs| - 1].encodingType := codecs[|codecs| - 1]][codecs[i].encodingType] == codecs[i]
  {
  }

  /** Putting the last codec into the registry built from the others. */
  lemma RegistryExtend(codecs: seq<Codec>, m: Registry)
    requires codecs != [] && codecs[|codecs| - 1].encodingType !in m
    requires m.Keys == Tokens(codecs[..|codecs| - 1])
    requires forall i :: 0 <= i < |codecs| - 1 ==> m[codecs[i].encodingType] == codecs[i]
    ensures m[codecs[|codecs| - 1].encodingType := codecs[|codecs| - 1]].Keys == Tokens(codecs)
    ensures forall i :: 0 <= i < |codecs| ==>
      m[codecs[|codecs| - 1].encodingType := codecs[|codecs| - 1]][codecs[i].encodingType] == codecs[i]
  {
    TokensSnoc(codecs);
    assert forall i :: 0 <= i < |codecs| - 1 ==> codecs[i].encodingType in Tokens(codecs[..|codecs| - 1]);
    SnocValues(codecs, m);
  }

  /** The registry is built exactly when no two codecs share a token, and
      then it holds every token and maps it to the codec answering to it. */
  lemma {:induction false} RegistryBuilt(codecs: seq<Codec>)
    ensures BuildRegistry(codecs).Success? <==> DistinctTokens(codecs)
    ensures BuildRegistry(codecs).Success? ==> BuildRegistry(codecs).value.Keys == Tokens(codecs)
    ensures BuildRegistry(codecs).Success? ==>
      forall i :: 0 <= i < |codecs| ==> BuildRegistry(codecs).value[codecs[i].encodingType] == codecs[i]
    decreases |codecs|
  {
    if codecs != [] {
      var n := |codecs| - 1;
      var init := codecs[..n];
      var last := codecs[n];
      RegistryBuilt(init);
      DistinctSnoc(codecs);
      match BuildRegistry(init)
      case Failure(t) =>
        assert BuildRegistry(codecs) == Failure(t);
      case Success(m) =>
        if last.encodingType in m {
          assert BuildRegistry(codecs) == Failure(last.encodingType);
        } else {
          assert BuildRegistry(codecs) == Success(m[last.encodingType := last]);
          assert forall i :: 0 <= i < n ==> init[i] == codecs[i];
          RegistryExtend(codecs, m);
        }
    }
  }

  /** When construction throws, it names the token of the first codec, in
      iteration order, whose token an earlier codec already has. */
  lemma {:induction false} RegistryClash(codecs: seq<Codec>)
    ensures BuildRegistry(codecs).Failure? ==>
      exists j :: 0 < j < |codecs| && DistinctTokens(codecs[..j])
        && codecs[j].encodingType in Tokens(codecs[..j]) && BuildRegistry(codecs).error == codecs[j].encodingType
    decreases |codecs|
  {
    if codecs != [] && BuildRegistry(codecs).Failure? {
      var n := |codecs| - 1;
      var init := codecs[..n];
      match BuildRegistry(init)
      case Failure(t) =>
        RegistryClash(init);
        var j :| 0 < j < |init| && DistinctTokens(init[..j])
          && init[j].encodingType in Tokens(init[..j]) && t == init[j].encodingType;
        assert init[..j] == codecs[..j] && init[j] == codecs[j];
      case Success(m) =>
        RegistryBuilt(init);
        assert n > 0;
        assert codecs[..n] == init;
    }
  }

  /** The registry's codec for the `i`-th token is the first one among
      `tokens` that has a codec. */
  predicate FirstAt(tokens: seq<string>, reg: Registry, i: int)
  {
    0 <= i < |tokens| && tokens[i] in reg && forall j :: 0 <= j < i ==> tokens[j] !in reg
  }

  /** The loop over `Content-Encoding` values that stops at the first one
      with a registered codec. */
  function FirstRegistered(tokens: seq<string>, reg: Registry): (r: Option<nat>)
    ensures r.Some? ==> FirstAt(tokens, reg, r.value)
    ensures r.None? <==> forall i :: 0 <= i < |tokens| ==> tokens[i] !in reg
  {
    if tokens == [] then None
    else if tokens[0] in reg then Some(0)
    else
      match FirstRegistered(tokens[1..], reg)
      case None => None
      case Some(i) => Some(i + 1)
  }

  /** At most one position can be the first registered one. */
  lemma FirstAtUnique(tokens: seq<string>, reg: Registry, i: int, j: int)
    requires FirstAt(tokens, reg, i) && FirstAt(tokens, reg, j)
    ensures i == j
  {
  }

  /** The codec chosen for a message with headers `h`, if any. */
  function Select(h: Headers, reg: Registry): (r: Option<Codec>)
    ensures r.None? <==> forall t :: t in GetOrEmpty(h, ContentEncoding) ==> t !in reg
    ensures r.Some? ==>
      exists i :: FirstAt(GetOrEmpty(h, ContentEncoding), reg, i) && r.value == reg[GetOrEmpty(h, ContentEncoding)[i]]
  {
    var tokens := GetOrEmpty(h, ContentEncoding);
    match FirstRegistered(tokens, reg)
    case None => None
    case Some(i) => Some(reg[tokens[i]])
  }

  // ---------------------------------------------------------------------
  // The body pipeline

  /** The response filter's configuration: `encryptEnable` and `encryptKey`,
      each possibly unset. */
  datatype ResponseConfig = ResponseConfig(encryptEnable: Option<bool>, encryptKey: Option<string>)

  /** `Content-Type: text/plain`, the header the intermediate response is
      given so that its body is read as text. */
  const TextPlain: string := "text/plain"

  function IntermediateHeaders(): (r: Headers)
    ensures WellFormed(r)
    ensures GetOrEmpty(r, ContentType) == [TextPlain]
  {
    Add([], ContentType, TextPlain)
  }

  /** `extractBody(..., String.class)`: no text for an empty body; otherwise
      the body, passed through the decoder of the first registered encoding
      token if there is one, read as UTF-8 text, the charset the string
      decoder takes for the `IntermediateHeaders` content type, which names
      none. */
  function ExtractBody(h: Headers, decoders: Registry, raw: seq<byte>): (r: Option<string>)
    ensures r.None? <==> raw == []
    ensures r.Some? && (forall t :: t in GetOrEmpty(h, ContentEncoding) ==> t !in decoders)
      ==> r.value == Utf8.Decode(raw)
    ensures r.Some? ==> forall i :: (FirstAt(GetOrEmpty(h, ContentEncoding), decoders, i)
      ==> r.value == Utf8.Decode(decoders[GetOrEmpty(h, ContentEncoding)[i]].apply(raw)))
  {
    if raw == [] then None
    else
      var d := Select(h, decoders);
      match d
      case None => Some(Utf8.Decode(raw))
      case Some(decoder) =>
        var tokens := GetOrEmpty(h, ContentEncoding);
        assert forall i :: FirstAt(tokens, decoders, i) ==> decoder == decoders[tokens[i]] by {
          forall i | FirstAt(tokens, decoders, i)
            ensures decoder == decoders[tokens[i]]
          {
            var k :| FirstAt(tokens, decoders, k) && decoder == decoders[tokens[k]];
            FirstAtUnique(tokens, decoders, i, k);
          }
        }
        Some(Utf8.Decode(decoder.apply(raw)))
  }

  /** The `flatMap` over the extracted text: the text itself when encryption
      is off, its encryption when on, and nothing when the configuration is
      unset or the encryption throws. */
  function Transform(c: Ecb.BlockCipher, config: ResponseConfig, text: string): (r: Option<string>)
    ensures config.encryptEnable == Some(false) ==> r == Some(text)
    ensures r.None? <==>
      || config.encryptEnable.None?
      || (config.encryptEnable == Some(true)
          && (config.encryptKey.None? || !Ecb.ValidKey(AesUtil.KeyBytes(config.encryptKey.value))))
    ensures r.Some? && config.encryptEnable == Some(true) ==> Utf8.IsAscii(r.value)
  {
    match config.encryptEnable
    case None => None
    case Some(enabled) =>
      if !enabled then Some(text)
      else
        match config.encryptKey
        case None => None
        case Some(key) => AesUtil.Encrypt(c, text, key).ToOption()
  }

  /** `writeBody`: the text's UTF-8 octets, passed once through the encoder
      of the first registered encoding token if there is one. */
  function WriteBody(h: Headers, encoders: Registry, text: Option<string>): (r: Option<seq<byte>>)
    ensures r.None? <==> text.None?
    ensures r.Some? && (forall t :: t in GetOrEmpty(h, ContentEncoding) ==> t !in encoders)
      ==> r.value == Utf8.Encode(text.value)
    ensures r.Some? ==> forall i :: (FirstAt(GetOrEmpty(h, ContentEncoding), encoders, i)
      ==> r.value == encoders[GetOrEmpty(h, ContentEncoding)[i]].apply(Utf8.Encode(text.value)))
  {
    match text
    case None => None
    case Some(s) =>
      var bytes := Utf8.Encode(s);
      match Select(h, encoders)
      case None => Some(bytes)
      case Some(encoder) =>
        var tokens := GetOrEmpty(h, ContentEncoding);
        assert forall i :: FirstAt(tokens, encoders, i) ==> encoder == encoders[tokens[i]] by {
          forall i | FirstAt(tokens, encoders, i)
            ensures encoder == encoders[tokens[i]]
          {
            var k :| FirstAt(tokens, encoders, k) && encoder == encoders[tokens[k]];
            FirstAtUnique(tokens, encoders, i, k);
          }
        }
        Some(encoder.apply(bytes))
  }

  /** Whether the deferred write installs a `Content-Length`: when the
      headers carry no `Transfer-Encoding`, or already carry a length. */
  predicate FixesLength(h: Headers)
  {
    !ContainsKey(h, TransferEncoding) || ContainsKey(h, ContentLength)
  }

  /** The headers the response goes out with: `setContentLength` of the
      emitted octet count, applied only when a body is emitted. */
  function FinalHeaders(h: Headers, body: Option<seq<byte>>): (r: Headers)
    requires WellFormed(h)
    ensures WellFormed(r)
  {
    if body.Some? && FixesLength(h) then Set(h, ContentLength, Decimal.Format(|body.value|))
    else h
  }

  /** What reaches the client: headers and, unless the pipeline came up
      empty, a body. */
  datatype Response = Response(headers: Headers, body: Option<seq<byte>>)

  /** `writeWith`: extract, transform, re-encode, fix the length. `h` is the
      response's headers as they stand when the body is written. */
  function WriteWith(c: Ecb.BlockCipher, config: ResponseConfig, decoders: Registry, encoders: Registry,
                     h: Headers, raw: seq<byte>): (r: Response)
    requires WellFormed(h)
    ensures WellFormed(r.headers)
    ensures r.body.None? <==> raw == [] || Transform(c, config, ExtractBody(h, decoders, raw).value).None?
  {
    var text := ExtractBody(h, decoders, raw);
    var out := if text.None? then None else Transform(c, config, text.value);
    var body := WriteBody(h, encoders, out);
    Response(FinalHeaders(h, body), body)
  }

  // ---------------------------------------------------------------------
  // Properties of the response pipeline

  /** The length rule: `Content-Length` ends up as the exact octet count of
      the emitted body when a body is emitted and the headers lack
      `Transfer-Encoding` or already have a length; otherwise the headers
      are left exactly as they were. */
  lemma ContentLengthRule(c: Ecb.BlockCipher, config: ResponseConfig, decoders: Registry, encoders: Registry,
                          h: Headers, raw: seq<byte>)
    requires WellFormed(h)
    ensures var r := WriteWith(c, config, decoders, encoders, h, raw);
      (r.body.Some? && FixesLength(h)) ==> GetOrEmpty(r.headers, ContentLength) == [Decimal.Format(|r.body.value|)]
    ensures var r := WriteWith(c, config, decoders, encoders, h, raw);
      !(r.body.Some? && FixesLength(h)) ==> r.headers == h
    ensures var r := WriteWith(c, config, decoders, encoders, h, raw);
      forall m :: !SameName(m, ContentLength) ==> GetOrEmpty(r.headers, m) == GetOrEmpty(h, m)
  {
    var r := WriteWith(c, config, decoders, encoders, h, raw);
    if r.body.Some? && FixesLength(h) {
      var v := Decimal.Format(|r.body.value|);
      GetPut(h, ContentLength, [v], ContentLength);
      forall m | !SameName(m, ContentLength)
        ensures GetOrEmpty(r.headers, m) == GetOrEmpty(h, m)
      {
        GetPut(h, ContentLength, [v], m);
      }
    }
  }

  /** A chunked response without a length keeps its headers even when a body
      is emitted: `Content-Length` is not added. */
  lemma ChunkedKeepsNoLength(c: Ecb.BlockCipher, config: ResponseConfig, decoders: Registry, encoders: Registry,
                             h: Headers, raw: seq<byte>)
    requires WellFormed(h) && ContainsKey(h, TransferEncoding) && !ContainsKey(h, ContentLength)
    ensures !ContainsKey(WriteWith(c, config, decoders, encoders, h, raw).headers, ContentLength)
  {
  }

  /** With encryption off and no registered codec for the response's
      encodings, a non-empty UTF-8 body goes out octet for octet, and its
      `Content-Length` (when one is set) is its own length. */
  lemma PassThrough(c: Ecb.BlockCipher, config: ResponseConfig, decoders: Registry, encoders: Registry,
                    h: Headers, s: string)
    requires WellFormed(h) && config.encryptEnable == Some(false) && s != []
    requires forall t :: t in GetOrEmpty(h, ContentEncoding) ==> t !in decoders && t !in encoders
    ensures WriteWith(c, config, decoders, encoders, h, Utf8.Encode(s)).body == Some(Utf8.Encode(s))
  {
    var raw := Utf8.Encode(s);
    assert raw != [] by {
      assert Utf8.EncodeChar(s[0]) != [];
      assert raw == Utf8.EncodeChar(s[0]) + Utf8.Encode(s[1..]);
    }
    Utf8.DecodeEncode(s);
  }

  /** With encryption on, a valid key and no registered encoder, the body
      sent is text that `AESUtil.decrypt` turns back into the backend's
      text. Being Base64, it goes out one octet per character, so its
      `Content-Length` is the length of the encrypted text. */
  lemma EncryptedBodyDecrypts(c: Ecb.BlockCipher, config: ResponseConfig, decoders: Registry, encoders: Registry,
                              h: Headers, raw: seq<byte>)
    requires WellFormed(h) && raw != [] && Ecb.IsPermutation(c)
    requires config.encryptEnable == Some(true) && config.encryptKey.Some?
    requires Ecb.ValidKey(AesUtil.KeyBytes(config.encryptKey.value))
    requires forall t :: t in GetOrEmpty(h, ContentEncoding) ==> t !in encoders
    ensures var r := WriteWith(c, config, decoders, encoders, h, raw);
      r.body.Some?
      && AesUtil.Decrypt(c, Utf8.Decode(r.body.value), config.encryptKey.value)
         == Success(ExtractBody(h, decoders, raw).value)
    ensures var r := WriteWith(c, config, decoders, encoders, h, raw);
      var x := AesUtil.Encrypt(c, ExtractBody(h, decoders, raw).value, config.encryptKey.value).value;
      && |r.body.value| == |x|
      && forall i :: 0 <= i < |x| ==> r.body.value[i] == x[i] as int
  {
    var text := ExtractBody(h, decoders, raw).value;
    var key := config.encryptKey.value;
    AesUtil.DecryptEncrypt(c, text, key);
    var x := AesUtil.Encrypt(c, text, key).value;
    Utf8.DecodeEncode(x);
    Utf8.EncodeAscii(x);
  }

  /** A failed or unconfigured encryption sends no body at all, and then the
      headers are left as they were. */
  lemma FailureSendsNothing(c: Ecb.BlockCipher, config: ResponseConfig, decoders: Registry, encoders: Registry,
                            h: Headers, raw: seq<byte>)
    requires WellFormed(h)
    requires config.encryptEnable.None?
      || (config.encryptEnable == Some(true)
          && (config.encryptKey.None? || !Ecb.ValidKey(AesUtil.KeyBytes(config.encryptKey.value))))
    ensures WriteWith(c, config, decoders, encoders, h, raw) == Response(h, None)
  {
  }

  // ---------------------------------------------------------------------
  // getHeaders

  /** `getHeaders()` on the decorated response: adds another `text/plain`
      to the delegate's `Content-Type` on every call. */
  function GetHeaders(h: Headers): (r: Headers)
    requires WellFormed(h)
    ensures WellFormed(r)
  {
    Add(h, ContentType, TextPlain)
  }

  /** `n` successive calls of `getHeaders()`. */
  function GetHeadersTimes(h: Headers, n: nat): (r: Headers)
    requires WellFormed(h)
    ensures WellFormed(r)
  {
    if n == 0 then h else GetHeaders(GetHeadersTimes(h, n - 1))
  }

  function Copies(s: string, n: nat): (r: seq<string>)
    ensures |r| == n && forall i :: 0 <= i < n ==> r[i] == s
  {
    if n == 0 then [] else Copies(s, n - 1) + [s]
  }

  lemma CopiesStep(base: seq<string>, x: seq<string>, y: seq<string>, s: string, n: nat)
    requires n > 0 && x == base + Copies(s, n - 1) && y == x + [s]
    ensures y == base + Copies(s, n)
  {
    assert Copies(s, n) == Copies(s, n - 1) + [s];
  }

  /** One more `getHeaders()` call adds one more `text/plain`. */
  lemma TypeStep(base: seq<string>, prior: Headers, m: string, n: nat)
    requires WellFormed(prior) && SameName(m, ContentType) && n > 0
    requires GetOrEmpty(prior, m) == base + Copies(TextPlain, n - 1)
    ensures GetOrEmpty(GetHeaders(prior), m) == base + Copies(TextPlain, n)
  {
    GetAdd(prior, ContentType, TextPlain, m);
    CopiesStep(base, GetOrEmpty(prior, m), GetOrEmpty(GetHeaders(prior), m), TextPlain, n);
  }

  lemma {:induction false} GetHeadersOther(h: Headers, n: nat, m: string)
    requires WellFormed(h) && !SameName(m, ContentType)
    ensures GetOrEmpty(GetHeadersTimes(h, n), m) == GetOrEmpty(h, m)
  {
    if n > 0 {
      GetHeadersOther(h, n - 1, m);
      GetAdd(GetHeadersTimes(h, n - 1), ContentType, TextPlain, m);
    }
  }

  lemma {:induction false} GetHeadersType(h: Headers, n: nat, m: string)
    requires WellFormed(h) && SameName(m, ContentType)
    ensures GetOrEmpty(GetHeadersTimes(h, n), m) == GetOrEmpty(h, m) + Copies(TextPlain, n)
  {
    if n == 0 {
      assert GetOrEmpty(h, m) + [] == GetOrEmpty(h, m);
    } else {
      GetHeadersType(h, n - 1, m);
      TypeStep(GetOrEmpty(h, m), GetHeadersTimes(h, n - 1), m, n);
    }
  }

  /** After `n` calls `Content-Type` carries its old values followed by `n`
      copies of `text/plain`, and every other header is untouched. */
  lemma GetHeadersAccumulates(h: Headers, n: nat, m: string)
    requires WellFormed(h)
    ensures GetOrEmpty(GetHeadersTimes(h, n), m)
         == if SameName(m, ContentType) then GetOrEmpty(h, m) + Copies(TextPlain, n) else GetOrEmpty(h, m)
  {
    if SameName(m, ContentType) {
      GetHeadersType(h, n, m);
    } else {
      GetHeadersOther(h, n, m);
    }
  }
}
