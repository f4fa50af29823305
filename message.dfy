/**
 * The aliyun message client: the common and business parameters of a
 * request, the canonical query string, the signature over it (the "POP"
 * signing scheme), the final query, and the success rule applied to the
 * decoded response.
 *
 * HMAC-SHA1 is a parameter `hmac(key, message)`. The HTTP round trip,
 * reading the body and decoding the JSON are one parameter
 * `exchange(host, rawQuery)` that yields the decoded response or the stage
 * that failed. The clock and the UUID generator are replaced by the
 * timestamp and nonce strings passed in.
 */
module Message {
  import opened Wrappers
  import opened ByteStrings
  import opened UrlEscape
  import Base64
  import opened Query

  /** The stage at which a request failed: building the request, the round
      trip, reading the body, or decoding the JSON. */
  datatype Failure = RequestFailed | TransportFailed | ReadFailed | DecodeFailed

  /** The fields common to every response. */
  datatype Response = Response(requestId: Bytes, code: Bytes, message: Bytes)

  datatype SmsResponse = SmsResponse(response: Response, bizId: Bytes)

  datatype SingleCallByTtsResponse = SingleCallByTtsResponse(response: Response, callId: Bytes)

  /** An optional parameter: one Set on the query, made after all the
      defaults. */
  datatype Param = Param(key: Bytes, value: Bytes)

  /** HMAC-SHA1 of a message under a key. */
  type Hmac = (Bytes, Bytes) -> Bytes

  const SmsHost: Bytes := "dysmsapi.aliyuncs.com"
  const VmsHost: Bytes := "dyvmsapi.aliyuncs.com"

  /** The parameter that carries the signature in the final query. */
  const SignatureKey: Bytes := "Signature"

  /** "Signature" is written as it is: it holds no '=' or '&', and
      unescaping leaves it unchanged. */
  lemma SignatureKeyBytes()
    ensures '=' !in SignatureKey && '&' !in SignatureKey
    ensures Unescape(SignatureKey) == Some(SignatureKey)
  {
    assert forall i | 0 <= i < |SignatureKey| :: IsUnreserved(SignatureKey[i]);
    UnreservedNoDelimiters(SignatureKey);
    UnescapeUnreserved(SignatureKey);
  }

  /** Both requests are signed as GET requests. */
  const HttpGet: Bytes := "GET"

  /** The separator of the three fields of the string to sign. */
  const Ampersand: Bytes := "&"

  /** The names of the common parameters and their fixed values. */
  const AccessKeyIdKey: Bytes := "AccessKeyId"
  const TimestampKey: Bytes := "Timestamp"
  const FormatKey: Bytes := "Format"
  const SignatureMethodKey: Bytes := "SignatureMethod"
  const SignatureVersionKey: Bytes := "SignatureVersion"
  const SignatureNonceKey: Bytes := "SignatureNonce"
  const JsonFormat: Bytes := "JSON"
  const HmacSha1: Bytes := "HMAC-SHA1"
  const SignatureVersion1: Bytes := "1.0"

  /** The names of the business parameters of both requests and the fixed
      values they share. */
  const ActionKey: Bytes := "Action"
  const VersionKey: Bytes := "Version"
  const RegionIdKey: Bytes := "RegionId"
  const PhoneNumbersKey: Bytes := "PhoneNumbers"
  const SignNameKey: Bytes := "SignName"
  const TemplateCodeKey: Bytes := "TemplateCode"
  const TemplateParamKey: Bytes := "TemplateParam"
  const CalledShowNumberKey: Bytes := "CalledShowNumber"
  const CalledNumberKey: Bytes := "CalledNumber"
  const TtsCodeKey: Bytes := "TtsCode"
  const TtsParamKey: Bytes := "TtsParam"
  const SendSmsAction: Bytes := "SendSms"
  const SingleCallByTtsAction: Bytes := "SingleCallByTts"
  const ApiVersion: Bytes := "2017-05-25"
  const ApiRegion: Bytes := "cn-hangzhou"

  /** The keys SetDefaultCommonParams writes. */
  const CommonKeys: set<Bytes> :=
    {AccessKeyIdKey, TimestampKey, FormatKey, SignatureMethodKey, SignatureVersionKey, SignatureNonceKey}

  /** The map after SetDefaultCommonParams: the six common keys hold the key
      ID, the timestamp, the fixed format and signature settings and the
      nonce; every other key is as it was. */
  function WithCommonParams(m: map<Bytes, Bytes>, accessKeyId: Bytes, timestamp: Bytes, nonce: Bytes)
    : (r: map<Bytes, Bytes>)
    ensures r.Keys == m.Keys + CommonKeys
    ensures r[AccessKeyIdKey] == accessKeyId && r[TimestampKey] == timestamp
    ensures r[FormatKey] == JsonFormat && r[SignatureMethodKey] == HmacSha1
    ensures r[SignatureVersionKey] == SignatureVersion1 && r[SignatureNonceKey] == nonce
    ensures forall k | k in m && k !in CommonKeys :: r[k] == m[k]
  {
    m[AccessKeyIdKey := accessKeyId][TimestampKey := timestamp][FormatKey := JsonFormat]
     [SignatureMethodKey := HmacSha1][SignatureVersionKey := SignatureVersion1][SignatureNonceKey := nonce]
  }

  /** The overrides applied in order, each a Set: a later one for the same
      key replaces an earlier one. */
  function ApplyOverrides(m: map<Bytes, Bytes>, params: seq<Param>): (r: map<Bytes, Bytes>)
    ensures forall k :: k in r <==> k in m || exists i | 0 <= i < |params| :: params[i].key == k
    decreases |params|
  {
    if params == [] then m
    else
      var last := params[|params| - 1];
      var r := ApplyOverrides(m, params[..|params| - 1])[last.key := last.value];
      assert forall i | 0 <= i < |params| - 1 :: params[..|params| - 1][i] == params[i];
      r
  }

  /** The value of a key is that of the last override naming it. */
  lemma {:induction false} LastWriteWins(m: map<Bytes, Bytes>, params: seq<Param>, i: int)
    requires 0 <= i < |params|
    requires forall j | i < j < |params| :: params[j].key != params[i].key
    ensures ApplyOverrides(m, params)[params[i].key] == params[i].value
    decreases |params|
  {
    if i < |params| - 1 {
      var init := params[..|params| - 1];
      assert forall j | i < j < |init| :: init[j] == params[j];
      LastWriteWins(m, init, i);
    }
  }

  /** A key no override names keeps what it had, or stays absent. */
  lemma {:induction false} Untouched(m: map<Bytes, Bytes>, params: seq<Param>, k: Bytes)
    requires forall j | 0 <= j < |params| :: params[j].key != k
    ensures k in ApplyOverrides(m, params) <==> k in m
    ensures k in m ==> ApplyOverrides(m, params)[k] == m[k]
    decreases |params|
  {
    if params != [] {
      var init := params[..|params| - 1];
      assert forall j | 0 <= j < |init| :: init[j] == params[j];
      Untouched(m, init, k);
    }
  }

  /** The parameters of SendSms before the overrides. */
  function SmsDefaults(accessKeyId: Bytes, timestamp: Bytes, nonce: Bytes, phoneNumbers: Bytes,
                       signName: Bytes, templateCode: Bytes, templateParam: Bytes): (r: map<Bytes, Bytes>)
    ensures r.Keys == CommonKeys + {ActionKey, VersionKey, RegionIdKey, PhoneNumbersKey, SignNameKey, TemplateCodeKey, TemplateParamKey}
  {
    WithCommonParams(map[], accessKeyId, timestamp, nonce)
      [ActionKey := SendSmsAction][VersionKey := ApiVersion][RegionIdKey := ApiRegion]
      [PhoneNumbersKey := phoneNumbers][SignNameKey := signName]
      [TemplateCodeKey := templateCode][TemplateParamKey := templateParam]
  }

  /** The value each SMS key holds before the overrides. */
  lemma SmsDefaultsValues(accessKeyId: Bytes, timestamp: Bytes, nonce: Bytes, phoneNumbers: Bytes,
                          signName: Bytes, templateCode: Bytes, templateParam: Bytes)
    ensures var r := SmsDefaults(accessKeyId, timestamp, nonce, phoneNumbers, signName, templateCode, templateParam);
      r[ActionKey] == SendSmsAction &&
      r[VersionKey] == ApiVersion &&
      r[RegionIdKey] == ApiRegion &&
      r[PhoneNumbersKey] == phoneNumbers &&
      r[SignNameKey] == signName &&
      r[TemplateCodeKey] == templateCode &&
      r[TemplateParamKey] == templateParam
  {
  }

  /** The parameters of MakeSingleCallByTTS before the overrides. */
  function TtsDefaults(accessKeyId: Bytes, timestamp: Bytes, nonce: Bytes, calledShowNumber: Bytes,
                       calledNumber: Bytes, ttsCode: Bytes, ttsParam: Bytes): (r: map<Bytes, Bytes>)
    ensures r.Keys == CommonKeys + {ActionKey, VersionKey, RegionIdKey, CalledShowNumberKey, CalledNumberKey, TtsCodeKey, TtsParamKey}
  {
    WithCommonParams(map[], accessKeyId, timestamp, nonce)
      [ActionKey := SingleCallByTtsAction][VersionKey := ApiVersion][RegionIdKey := ApiRegion]
      [CalledShowNumberKey := calledShowNumber][CalledNumberKey := calledNumber]
      [TtsCodeKey := ttsCode][TtsParamKey := ttsParam]
  }

  /** The value each call key holds before the overrides. */
  lemma TtsDefaultsValues(accessKeyId: Bytes, timestamp: Bytes, nonce: Bytes, calledShowNumber: Bytes,
                          calledNumber: Bytes, ttsCode: Bytes, ttsParam: Bytes)
    ensures var r := TtsDefaults(accessKeyId, timestamp, nonce, calledShowNumber, calledNumber, ttsCode, ttsParam);
      r[ActionKey] == SingleCallByTtsAction &&
      r[VersionKey] == ApiVersion &&
      r[RegionIdKey] == ApiRegion &&
      r[CalledShowNumberKey] == calledShowNumber &&
      r[CalledNumberKey] == calledNumber &&
      r[TtsCodeKey] == ttsCode &&
      r[TtsParamKey] == ttsParam
  {
  }

  /** The string that is signed: the method, the escaped path "/" and the
      escaped canonical query, separated by '&'. */
  function StringToSign(httpMethod: Bytes, sortedQueryStr: Bytes): (str: Bytes)
    ensures str == httpMethod + Ampersand + EncodedRootPath + Ampersand + StrictEscape(sortedQueryStr)
  {
    EscapedRootPath();
    httpMethod + Ampersand + QueryEscape(RootPath) + Ampersand + SpecialURLEncode(sortedQueryStr)
  }

  /** For a method without '&', the string to sign splits into exactly
      the method, "%2F" and the escaped query, and the last field decodes to
      the query: the layout is unambiguous. */
  lemma StringToSignFields(httpMethod: Bytes, sortedQueryStr: Bytes)
    requires '&' !in httpMethod
    ensures Split(StringToSign(httpMethod, sortedQueryStr), '&')
         == [httpMethod, EncodedRootPath, StrictEscape(sortedQueryStr)]
    ensures Unescape(StrictEscape(sortedQueryStr)) == Some(sortedQueryStr)
  {
    var e := StrictEscape(sortedQueryStr);
    var slash := EncodedRootPath;
    assert forall i | 0 <= i < |e| :: e[i] != '&';
    assert forall i | 0 <= i < |slash| :: slash[i] != '&';
    var parts := [httpMethod, slash, e];
    JoinThree(httpMethod, slash, e, '&');
    SplitJoin(parts, '&');
    StrictEscapeRoundTrip(sortedQueryStr);
  }

  lemma JoinThree(a: Bytes, b: Bytes, c: Bytes, sep: Byte)
    ensures Join([a, b, c], sep) == a + [sep] + b + [sep] + c
  {
    assert [a, b, c][1..] == [b, c] && [b, c][1..] == [c];
  }

  /** Different queries give different strings to sign. */
  lemma StringToSignInjective(httpMethod: Bytes, q1: Bytes, q2: Bytes)
    requires '&' !in httpMethod
    requires StringToSign(httpMethod, q1) == StringToSign(httpMethod, q2)
    ensures q1 == q2
  {
    StringToSignFields(httpMethod, q1);
    StringToSignFields(httpMethod, q2);
  }

  /** Letters and digits, and `%` only as the start of "%2B", "%2F" or
      "%3D": the escaped base64 symbols '+', '/' and '='. */
  ghost predicate SignatureForm(s: Bytes)
  {
    forall i | 0 <= i < |s| ::
      IsAlnum(s[i]) ||
      (s[i] == '%' && i + 2 < |s| && (s[i + 1..i + 3] == "2B" || s[i + 1..i + 3] == "2F" || s[i + 1..i + 3] == "3D"))
  }

  lemma SignatureFormAppend(a: Bytes, b: Bytes)
    requires SignatureForm(a) && SignatureForm(b)
    ensures SignatureForm(a + b)
  {
    var s := a + b;
    forall i | 0 <= i < |s| && !IsAlnum(s[i])
      ensures s[i] == '%' && i + 2 < |s| && (s[i + 1..i + 3] == "2B" || s[i + 1..i + 3] == "2F" || s[i + 1..i + 3] == "3D")
    {
      if i < |a| {
        assert a[i] == s[i];
        assert s[i + 1..i + 3] == a[i + 1..i + 3];
      } else {
        assert b[i - |a|] == s[i];
        assert s[i + 1..i + 3] == b[i - |a| + 1..i - |a| + 3];
      }
    }
  }

  /** The strict encoding of base64 text has the signature's form. */
  lemma {:induction false} EscapedBase64Form(t: Bytes)
    requires forall i | 0 <= i < |t| :: Base64.IsSymbol(t[i]) || t[i] == '='
    ensures SignatureForm(StrictEscape(t))
    decreases |t|
  {
    if t != [] {
      var c := t[0];
      var head := StrictEscapeByte(c);
      if c == '+' {
        assert head == "%2B";
      } else if c == '/' {
        assert head == "%2F";
      } else if c == '=' {
        assert head == "%3D";
      } else {
        assert head == [c] && IsAlnum(c);
      }
      assert SignatureForm(head);
      EscapedBase64Form(t[1..]);
      SignatureFormAppend(head, StrictEscape(t[1..]));
    }
  }

  /** A receiver that re-encodes the parsed parameters with
      url.Values.Encode: the query reads back, and the value of "Signature"
      is the base64 text of the HMAC, keyed with the secret followed by '&',
      of the string to sign built from `Values.Encode` of all the other
      parameters. This is the client's own canonical form read back, not a
      verifier defined independently of the client. */
  predicate Verifies(hmac: Hmac, accessKeySecret: Bytes, httpMethod: Bytes, rawQuery: Bytes)
  {
    match ParseQuery(rawQuery)
    case None => false
    case Some(ps) =>
      var m := ToMap(ps);
      SignatureKey in m &&
      m[SignatureKey] == Base64.Encode(hmac(accessKeySecret + ['&'], StringToSign(httpMethod, EncodeEntries(m - {SignatureKey}))))
  }

  /** The business outcome: the upper-cased code is "OK". Exactly the four
      spellings of "ok" succeed. */
  function IsSuccess(code: Bytes): (ok: bool)
    ensures ok <==> |code| == 2 && (code[0] == 'O' || code[0] == 'o') && (code[1] == 'K' || code[1] == 'k')
  {
    var u := ToUpper(code);
    assert |u| == 2 ==> u == [u[0], u[1]];
    u == "OK"
  }

  /** SpecialURLEncode of base64 text: every '%' starts "%2B", "%2F" or
      "%3D", everything else is a letter or digit. */
  lemma SignatureEscapes(digest: Bytes)
    ensures SignatureForm(SpecialURLEncode(Base64.Encode(digest)))
  {
    Base64.EncodeAlphabet(digest);
    EscapedBase64Form(Base64.Encode(digest));
  }

  /** The raw query sent: "Signature=<sign>&<sorted>". */
  function FinalQuery(sign: Bytes, sortedQueryStr: Bytes): (rawQuery: Bytes)
    ensures |rawQuery| == |SignatureKey| + |sign| + |sortedQueryStr| + 2
    ensures rawQuery[..|SignatureKey| + 1] == SignatureKey + ['=']
    ensures rawQuery[|rawQuery| - |sortedQueryStr|..] == sortedQueryStr
  {
    SignatureKey + ['='] + sign + ['&'] + sortedQueryStr
  }

  /** A client holds the access key ID and secret (NewClient). */
  datatype Client = Client(accessKeyId: Bytes, accessKeySecret: Bytes)
  {
    /** The digest of the string to sign, keyed with the secret followed
        by '&'. */
    function Digest(hmac: Hmac, httpMethod: Bytes, sortedQueryStr: Bytes): (d: Bytes)
    {
      hmac(accessKeySecret + ['&'], StringToSign(httpMethod, sortedQueryStr))
    }

    /** The signature: the base64 text of the digest, strictly escaped. It
        holds only letters, digits and '%', and decoding it gives back the
        base64 text and then the digest. */
    function SignedString(hmac: Hmac, httpMethod: Bytes, sortedQueryStr: Bytes): (sign: Bytes)
      ensures forall i | 0 <= i < |sign| :: IsAlnum(sign[i]) || sign[i] == '%'
      ensures Unescape(sign) == Some(Base64.Encode(Digest(hmac, httpMethod, sortedQueryStr)))
      ensures Base64.Decode(Unescape(sign).value) == Some(Digest(hmac, httpMethod, sortedQueryStr))
    {
      var digest := hmac(accessKeySecret + ['&'], StringToSign(httpMethod, sortedQueryStr));
      var sign := Base64.Encode(digest);
      SignatureEscapes(digest);
      StrictEscapeRoundTrip(sign);
      Base64.DecodeEncode(digest);
      SpecialURLEncode(sign)
    }

    /** The signature is the strict escape of the base64 text of the
        digest. */
    lemma SignedStringEscapes(hmac: Hmac, httpMethod: Bytes, sortedQueryStr: Bytes)
      ensures SignedString(hmac, httpMethod, sortedQueryStr)
           == StrictEscape(Base64.Encode(Digest(hmac, httpMethod, sortedQueryStr)))
    {
    }

    /** The final query: the signature, then the canonical query string
        it was computed over. */
    function SignedQuery(hmac: Hmac, m: map<Bytes, Bytes>): (rawQuery: Bytes)
    {
      var sortedQueryStr := EncodeEntries(m);
      FinalQuery(SignedString(hmac, HttpGet, sortedQueryStr), sortedQueryStr)
    }

    /** The parameters SendSMS signs: the defaults, then the overrides. */
    function SmsParams(timestamp: Bytes, nonce: Bytes, phoneNumbers: Bytes, signName: Bytes,
                       templateCode: Bytes, templateParam: Bytes, params: seq<Param>): (m: map<Bytes, Bytes>)
    {
      ApplyOverrides(SmsDefaults(accessKeyId, timestamp, nonce, phoneNumbers, signName, templateCode, templateParam), params)
    }

    /** The parameters MakeSingleCallByTTS signs: the defaults, then the
        overrides. */
    function TtsParams(timestamp: Bytes, nonce: Bytes, calledShowNumber: Bytes, calledNumber: Bytes,
                       ttsCode: Bytes, ttsParam: Bytes, params: seq<Param>): (m: map<Bytes, Bytes>)
    {
      ApplyOverrides(TtsDefaults(accessKeyId, timestamp, nonce, calledShowNumber, calledNumber, ttsCode, ttsParam), params)
    }

    /** SetDefaultCommonParams: writes the six common keys into `v`. */
    method SetDefaultCommonParams(v: Values, timestamp: Bytes, nonce: Bytes)
      modifies v
      ensures v.entries == WithCommonParams(old(v.entries), accessKeyId, timestamp, nonce)
    {
      v.Set(AccessKeyIdKey, accessKeyId);
      v.Set(TimestampKey, timestamp);
      v.Set(FormatKey, JsonFormat);
      v.Set(SignatureMethodKey, HmacSha1);
      v.Set(SignatureVersionKey, SignatureVersion1);
      v.Set(SignatureNonceKey, nonce);
    }

    /** The fresh url.Values SendSMS fills before the overrides. */
    method SmsValues(timestamp: Bytes, nonce: Bytes, phoneNumbers: Bytes, signName: Bytes,
                     templateCode: Bytes, templateParam: Bytes)
      returns (v: Values)
      ensures fresh(v)
      ensures v.entries == SmsDefaults(accessKeyId, timestamp, nonce, phoneNumbers, signName, templateCode, templateParam)
    {
      v := new Values();
      SetDefaultCommonParams(v, timestamp, nonce);
      v.Set(ActionKey, SendSmsAction);
      v.Set(VersionKey, ApiVersion);
      v.Set(RegionIdKey, ApiRegion);
      v.Set(PhoneNumbersKey, phoneNumbers);
      v.Set(SignNameKey, signName);
      v.Set(TemplateCodeKey, templateCode);
      v.Set(TemplateParamKey, templateParam);
    }

    /** The fresh url.Values MakeSingleCallByTTS fills before the overrides. */
    method TtsValues(timestamp: Bytes, nonce: Bytes, calledShowNumber: Bytes, calledNumber: Bytes,
                     ttsCode: Bytes, ttsParam: Bytes)
      returns (v: Values)
      ensures fresh(v)
      ensures v.entries == TtsDefaults(accessKeyId, timestamp, nonce, calledShowNumber, calledNumber, ttsCode, ttsParam)
    {
      v := new Values();
      SetDefaultCommonParams(v, timestamp, nonce);
      v.Set(ActionKey, SingleCallByTtsAction);
      v.Set(VersionKey, ApiVersion);
      v.Set(RegionIdKey, ApiRegion);
      v.Set(CalledShowNumberKey, calledShowNumber);
      v.Set(CalledNumberKey, calledNumber);
      v.Set(TtsCodeKey, ttsCode);
      v.Set(TtsParamKey, ttsParam);
    }

    /** The override loop: each parameter in turn is one Set on `v`. */
    method ApplyParams(v: Values, params: seq<Param>)
      modifies v
      ensures v.entries == ApplyOverrides(old(v.entries), params)
    {
      ghost var before := v.entries;
      var i := 0;
      while i < |params|
        invariant 0 <= i <= |params|
        invariant v.entries == ApplyOverrides(before, params[..i])
      {
        v.Set(params[i].key, params[i].value);
        assert params[..i + 1][..i] == params[..i];
        i := i + 1;
      }
      assert params[..|params|] == params;
    }

    /** The common tail of both requests: encode the parameters, sign them,
        send the final query to `host`, and apply the success rule to the
        code of the decoded response. */
    method SignAndSend<R>(hmac: Hmac, exchange: (Bytes, Bytes) -> Result<R, Failure>, codeOf: R -> Bytes,
                          host: Bytes, v: Values)
      returns (ok: bool, response: Option<R>, err: Option<Failure>)
      ensures match exchange(host, SignedQuery(hmac, v.entries))
        case Err(e) => !ok && response == None && err == Some(e)
        case Ok(r) => ok == IsSuccess(codeOf(r)) && response == Some(r) && err == None
    {
      var sortedQueryStr := v.Encode();
      var sign := SignedString(hmac, HttpGet, sortedQueryStr);
      var rawQuery := FinalQuery(sign, sortedQueryStr);
      match exchange(host, rawQuery)
      case Err(e) =>
        ok, response, err := false, None, Some(e);
      case Ok(r) =>
        if !IsSuccess(codeOf(r)) {
          ok, response, err := false, Some(r), None;
        } else {
          ok, response, err := true, Some(r), None;
        }
    }

    /** SendSMS: builds the parameters, applies the overrides in order,
        signs the canonical query and sends it to the SMS host. A failed
        exchange gives its failure and no response; otherwise the decoded
        response is returned, and `ok` is the business outcome of its code. */
    method SendSMS(hmac: Hmac, exchange: (Bytes, Bytes) -> Result<SmsResponse, Failure>,
                   timestamp: Bytes, nonce: Bytes, phoneNumbers: Bytes, signName: Bytes,
                   templateCode: Bytes, templateParam: Bytes, params: seq<Param>)
      returns (ok: bool, response: Option<SmsResponse>, err: Option<Failure>)
      ensures var rawQuery := SignedQuery(hmac, SmsParams(timestamp, nonce, phoneNumbers, signName, templateCode, templateParam, params));
        match exchange(SmsHost, rawQuery)
        case Err(e) => !ok && response == None && err == Some(e)
        case Ok(r) => ok == IsSuccess(r.response.code) && response == Some(r) && err == None
    {
      var v := SmsValues(timestamp, nonce, phoneNumbers, signName, templateCode, templateParam);
      ApplyParams(v, params);
      ok, response, err := SignAndSend(hmac, exchange, (r: SmsResponse) => r.response.code, SmsHost, v);
    }

    /** MakeSingleCallByTTS: as SendSMS, with the voice call's parameters,
        sent to the voice host. */
    method MakeSingleCallByTTS(hmac: Hmac, exchange: (Bytes, Bytes) -> Result<SingleCallByTtsResponse, Failure>,
                               timestamp: Bytes, nonce: Bytes, calledShowNumber: Bytes, calledNumber: Bytes,
                               ttsCode: Bytes, ttsParam: Bytes, params: seq<Param>)
      returns (ok: bool, response: Option<SingleCallByTtsResponse>, err: Option<Failure>)
      ensures var rawQuery := SignedQuery(hmac, TtsParams(timestamp, nonce, calledShowNumber, calledNumber, ttsCode, ttsParam, params));
        match exchange(VmsHost, rawQuery)
        case Err(e) => !ok && response == None && err == Some(e)
        case Ok(r) => ok == IsSuccess(r.response.code) && response == Some(r) && err == None
    {
      var v := TtsValues(timestamp, nonce, calledShowNumber, calledNumber, ttsCode, ttsParam);
      ApplyParams(v, params);
      ok, response, err := SignAndSend(hmac, exchange, (r: SingleCallByTtsResponse) => r.response.code, VmsHost, v);
    }
  }

  /** The signature holds letters and digits, and '%' only in the escapes
      of the base64 symbols '+', '/' and '='. */
  lemma SignatureCharacters(c: Client, hmac: Hmac, httpMethod: Bytes, sortedQueryStr: Bytes)
    ensures SignatureForm(c.SignedString(hmac, httpMethod, sortedQueryStr))
  {
    SignatureEscapes(c.Digest(hmac, httpMethod, sortedQueryStr));
  }

  /** The raw query reads back as the decoded signature under "Signature",
      followed by the pairs of the canonical query. */
  lemma FinalQueryParse(sign: Bytes, sortedQueryStr: Bytes, b: Bytes, ps: seq<Pair>)
    requires '&' !in sign
    requires Unescape(sign) == Some(b) && ParseQuery(sortedQueryStr) == Some(ps)
    ensures ParseQuery(FinalQuery(sign, sortedQueryStr)) == Some([(SignatureKey, b)] + ps)
  {
    SignatureKeyBytes();
    ParseKeyedQuery(SignatureKey, sign, sortedQueryStr, b, ps);
  }

  /** The final query reads back as the base64 text of the digest under
      "Signature", followed by every parameter once, in canonical order. */
  lemma SignedQueryParse(c: Client, hmac: Hmac, m: map<Bytes, Bytes>)
    ensures ParseQuery(c.SignedQuery(hmac, m))
         == Some([(SignatureKey, Base64.Encode(c.Digest(hmac, HttpGet, EncodeEntries(m))))] + Pairs(m))
  {
    var sorted := EncodeEntries(m);
    var sign := c.SignedString(hmac, HttpGet, sorted);
    assert '&' !in sign by {
      assert forall i | 0 <= i < |sign| :: sign[i] != '&';
    }
    EncodeParse(m);
    FinalQueryParse(sign, sorted, Base64.Encode(c.Digest(hmac, HttpGet, sorted)), Pairs(m));
  }

  lemma RemoveAdded(m: map<Bytes, Bytes>, k: Bytes, v: Bytes)
    requires k !in m
    ensures m[k := v] - {k} == m
  {
  }

  /** A request whose parameters do not already hold "Signature" is
      accepted by a receiver that re-encodes the parsed parameters with
      url.Values.Encode. */
  lemma SignedQueryVerifies(c: Client, hmac: Hmac, m: map<Bytes, Bytes>)
    requires SignatureKey !in m
    ensures Verifies(hmac, c.accessKeySecret, HttpGet, c.SignedQuery(hmac, m))
  {
    SignedQueryParse(c, hmac, m);
    var b64 := Base64.Encode(c.Digest(hmac, HttpGet, EncodeEntries(m)));
    ToMapCons((SignatureKey, b64), Pairs(m));
    ToMapPairs(m);
    RemoveAdded(m, SignatureKey, b64);
  }

  /** An SMS request is accepted by a receiver that re-encodes the parsed
      parameters with url.Values.Encode, unless an override sets
      "Signature" itself. */
  lemma SmsRequestVerifies(c: Client, hmac: Hmac, timestamp: Bytes, nonce: Bytes, phoneNumbers: Bytes,
                           signName: Bytes, templateCode: Bytes, templateParam: Bytes, params: seq<Param>)
    requires forall i | 0 <= i < |params| :: params[i].key != SignatureKey
    ensures Verifies(hmac, c.accessKeySecret, HttpGet,
                     c.SignedQuery(hmac, c.SmsParams(timestamp, nonce, phoneNumbers, signName, templateCode, templateParam, params)))
  {
    var defaults := SmsDefaults(c.accessKeyId, timestamp, nonce, phoneNumbers, signName, templateCode, templateParam);
    assert SignatureKey !in defaults;
    Untouched(defaults, params, SignatureKey);
    SignedQueryVerifies(c, hmac, c.SmsParams(timestamp, nonce, phoneNumbers, signName, templateCode, templateParam, params));
  }

  /** A voice-call request is accepted by a receiver that re-encodes the
      parsed parameters with url.Values.Encode, unless an override sets
      "Signature" itself. */
  lemma TtsRequestVerifies(c: Client, hmac: Hmac, timestamp: Bytes, nonce: Bytes, calledShowNumber: Bytes,
                           calledNumber: Bytes, ttsCode: Bytes, ttsParam: Bytes, params: seq<Param>)
    requires forall i | 0 <= i < |params| :: params[i].key != SignatureKey
    ensures Verifies(hmac, c.accessKeySecret, HttpGet,
                     c.SignedQuery(hmac, c.TtsParams(timestamp, nonce, calledShowNumber, calledNumber, ttsCode, ttsParam, params)))
  {
    var defaults := TtsDefaults(c.accessKeyId, timestamp, nonce, calledShowNumber, calledNumber, ttsCode, ttsParam);
    assert SignatureKey !in defaults;
    Untouched(defaults, params, SignatureKey);
    SignedQueryVerifies(c, hmac, c.TtsParams(timestamp, nonce, calledShowNumber, calledNumber, ttsCode, ttsParam, params));
  }

  /** An HMAC-SHA1 digest is 20 bytes, so its base64 text ends in one '='
      and the signature in "%3D". */
  lemma SignatureEndsInEscapedPad(c: Client, hmac: Hmac, httpMethod: Bytes, sortedQueryStr: Bytes)
    requires |c.Digest(hmac, httpMethod, sortedQueryStr)| == 20
    ensures var sign := c.SignedString(hmac, httpMethod, sortedQueryStr);
      |sign| >= 3 && sign[|sign| - 3..] == "%3D"
  {
    var d := c.Digest(hmac, httpMethod, sortedQueryStr);
    assert |d| % 3 == 2;
    EscapedBase64PadAtEnd(d);
    c.SignedStringEscapes(hmac, httpMethod, sortedQueryStr);
  }

  /** Two bytes left over after the whole groups give one '=' of padding,
      escaped as "%3D" at the very end. */
  lemma EscapedBase64PadAtEnd(d: Bytes)
    requires |d| % 3 == 2
    ensures var e := StrictEscape(Base64.Encode(d)); |e| >= 3 && e[|e| - 3..] == "%3D"
  {
    Base64.EncodePadding(d);
    EscapedPadAtEnd(Base64.Encode(d));
  }

  /** Text ending in '=' escapes to text ending in "%3D". */
  lemma EscapedPadAtEnd(t: Bytes)
    requires |t| > 0 && t[|t| - 1] == '='
    ensures var e := StrictEscape(t); |e| >= 3 && e[|e| - 3..] == "%3D"
  {
    var init := t[..|t| - 1];
    assert t == init + ['='];
    StrictEscapeAppend(init, ['=']);
    EscapedPad();
  }

  lemma EscapedPad()
    ensures StrictEscape(['=']) == "%3D"
  {
    var pad: Bytes := ['='];
    assert pad[1..] == [];
  }
}
