/**
  Signed tokens: JWT in compact form (section 7.1 of RFC 7515) and timed tokens.
  HMAC and JSON are arbitrary functions.
*/
module Tokens {
  import opened Common
  import opened Base64Url
  import opened Text

  /** A JSON value, as far as the token code looks into it. */
  datatype Json = Null | Int(n: int) | Str(s: string) | Other(json: string)

  type Fields = map<string, Json>

  /** What json.loads yields: an exception, an object, or some other value. */
  datatype Loaded = NotJson | Object(fields: Fields) | NotObject

  datatype Codec = Codec(
    dump: Fields -> Bytes, load: Bytes -> Loaded, intOf: string -> Option<int>, mac: (string, string) -> Bytes)

  datatype TokenError =
    | UnsupportedAlgorithm | NoSecret | InvalidStructure | InvalidHeader | InvalidSignatureEncoding
    | NotAscii | InvalidSignature | UnreadablePayload | UnreadableExpiry | Expired

  /** secret or default: an empty secret gives way to the default. */
  function Secret(secret: Option<string>, default: Option<string>): Option<string> {
    if secret.Some? && secret.value != "" then secret else default
  }

  /** payload.setdefault("exp", now + expires_in) */
  function WithExpiry(payload: Fields, expiresIn: Option<int>, now: int): Fields {
    if expiresIn.Some? && "exp" !in payload then payload["exp" := Int(now + expiresIn.value)] else payload
  }

  const HEADER: Fields := map["alg" := Str("HS256"), "typ" := Str("JWT")]

  /** One segment: the encoded JSON text. */
  function Segment(c: Codec, fields: Fields): string {
    Encode(c.dump(fields))
  }

  function CreateJwt(c: Codec, payload: Fields, secret: Option<string>, default: Option<string>, algorithm: string,
                     expiresIn: Option<int>, now: int): Result<string, TokenError> {
    var key := Secret(secret, default);
    if algorithm != "HS256" then Err(UnsupportedAlgorithm)
    else if key.None? then Err(NoSecret)
    else
      var segments := [Segment(c, HEADER), Segment(c, WithExpiry(payload, expiresIn, now))];
      var sig := c.mac(key.value, Join(segments, '.'));
      Ok(Join(segments + [Encode(sig)], '.'))
  }

  function LoadSegment(c: Codec, s: string): Loaded {
    var raw := Decode(s);
    if raw.None? then NotJson else c.load(raw.value)
  }

  /** int() of a JSON value; a value it refuses raises. */
  function IntOf(c: Codec, v: Json): Option<int> {
    match v
    case Null => None
    case Int(n) => Some(n)
    case Str(s) => ParseInt(s)
    case Other(json) => c.intOf(json)
  }

  /** The expiry test on an authentic payload; a null "exp" counts as absent. */
  function CheckExpiry(c: Codec, payload: Fields, leeway: int, now: int): Result<Fields, TokenError> {
    if "exp" !in payload || payload["exp"].Null? then Ok(payload)
    else
      match IntOf(c, payload["exp"])
      case None => Err(UnreadableExpiry)
      case Some(exp) => if now > exp + leeway then Err(Expired) else Ok(payload)
  }

  function VerifyJwt(c: Codec, token: string, secret: Option<string>, default: Option<string>, leeway: int, now: int)
    : Result<Fields, TokenError>
  {
    var key := Secret(secret, default);
    var parts := Split(token, '.');
    if key.None? then Err(NoSecret)
    else if |parts| != 3 then Err(InvalidStructure)
    else
      var header := LoadSegment(c, parts[0]);
      if !header.Object? || "alg" !in header.fields || header.fields["alg"] != Str("HS256") then Err(InvalidHeader)
      else
        var sig := Decode(parts[2]);
        if !Ascii(parts[1]) then Err(NotAscii)
        else if sig.None? then Err(InvalidSignatureEncoding)
        else if sig.value != c.mac(key.value, Join(parts[..2], '.')) then Err(InvalidSignature)
        else
          var payload := LoadSegment(c, parts[1]);
          if !payload.Object? then Err(UnreadablePayload) else CheckExpiry(c, payload.fields, leeway, now)
  }

  // ---- round trips ---------------------------------------------------------

  /** No segment contains a dot, so the three segments come apart again. */
  lemma SegmentsSurvive(parts: seq<Bytes>)
    requires parts != []
    ensures Split(Join(seq(|parts|, i requires 0 <= i < |parts| => Encode(parts[i])), '.'), '.')
         == seq(|parts|, i requires 0 <= i < |parts| => Encode(parts[i]))
  {
    var segments := seq(|parts|, i requires 0 <= i < |parts| => Encode(parts[i]));
    forall p | p in segments
      ensures '.' !in p
    {
      var i :| 0 <= i < |parts| && segments[i] == p;
      EncodeChars(parts[i]);
    }
    SplitJoin(segments, '.');
  }

  lemma JoinThree(a: string, b: string, s: string)
    ensures Join([a, b, s], '.') == a + "." + b + "." + s
    ensures Join([a, b], '.') == a + "." + b
  {
    assert [a, b, s][1..] == [b, s] && [b, s][1..] == [s] && [a, b][1..] == [b];
    assert Join([b, s], '.') == b + "." + s;
  }

  lemma SegmentLoads(c: Codec, fields: Fields)
    requires c.load(c.dump(fields)) == Object(fields)
    ensures LoadSegment(c, Segment(c, fields)) == Object(fields)
  {
    RoundTrip(c.dump(fields));
  }

  /**
    A token made under one key and checked under another, for any payload that
    survives JSON: with equal signatures it gives back the payload with its
    expiry exactly while that has not passed, and otherwise it is rejected.
  */
  lemma JwtRoundTrip(c: Codec, payload: Fields, made: Option<string>, checked: Option<string>, default: Option<string>,
                     expiresIn: Option<int>, created: int, leeway: int, now: int)
    requires Secret(made, default).Some? && Secret(checked, default).Some?
    requires c.load(c.dump(HEADER)) == Object(HEADER)
    requires var p := WithExpiry(payload, expiresIn, created); c.load(c.dump(p)) == Object(p)
    ensures var token := CreateJwt(c, payload, made, default, "HS256", expiresIn, created);
            var p := WithExpiry(payload, expiresIn, created);
            var input := Segment(c, HEADER) + "." + Segment(c, p);
            token.Ok? && VerifyJwt(c, token.value, checked, default, leeway, now) ==
              if c.mac(Secret(checked, default).value, input) == c.mac(Secret(made, default).value, input)
              then CheckExpiry(c, p, leeway, now) else Err(InvalidSignature)
  {
    var p := WithExpiry(payload, expiresIn, created);
    var h, s := Segment(c, HEADER), Segment(c, p);
    var sig := c.mac(Secret(made, default).value, Join([h, s], '.'));
    JoinThree(h, s, Encode(sig));
    var parts := [c.dump(HEADER), c.dump(p), sig];
    SegmentsSurvive(parts);
    assert seq(|parts|, i requires 0 <= i < |parts| => Encode(parts[i])) == [h, s, Encode(sig)];
    assert [h, s] + [Encode(sig)] == [h, s, Encode(sig)];
    assert [h, s, Encode(sig)][..2] == [h, s];
    EncodeChars(c.dump(p));
    PlainIsAscii(s);
    RoundTrip(sig);
    SegmentLoads(c, HEADER);
    SegmentLoads(c, p);
  }

  /** key is the one in use: the secret that is passed, or the default when none or an empty one is. */
  ghost predicate InUse(key: string, secret: Option<string>, default: Option<string>) {
    (secret == Some(key) && key != "") || ((secret == None || secret == Some("")) && default == Some(key))
  }

  /** A token is header, payload and signature; the key in use signs the first two. */
  lemma JwtForm(c: Codec, payload: Fields, key: string, secret: Option<string>, default: Option<string>,
                expiresIn: Option<int>, created: int)
    requires InUse(key, secret, default)
    ensures var p := if expiresIn.Some? && "exp" !in payload then payload["exp" := Int(created + expiresIn.value)] else payload;
            var input := Encode(c.dump(map["alg" := Str("HS256"), "typ" := Str("JWT")])) + "." + Encode(c.dump(p));
            CreateJwt(c, payload, secret, default, "HS256", expiresIn, created) == Ok(input + "." + Encode(c.mac(key, input)))
  {
    var h, s := Segment(c, HEADER), Segment(c, WithExpiry(payload, expiresIn, created));
    var sig := Encode(c.mac(key, h + "." + s));
    JoinThree(h, s, sig);
    assert [h, s] + [sig] == [h, s, sig];
  }

  /** Nothing is signed with another algorithm or without a key. */
  lemma JwtRefused(c: Codec, payload: Fields, secret: Option<string>, default: Option<string>, algorithm: string,
                   expiresIn: Option<int>, now: int)
    ensures algorithm != "HS256" ==> CreateJwt(c, payload, secret, default, algorithm, expiresIn, now) == Err(UnsupportedAlgorithm)
    ensures algorithm == "HS256" && (secret == None || secret == Some("")) && default == None ==>
              CreateJwt(c, payload, secret, default, algorithm, expiresIn, now) == Err(NoSecret) &&
              CreateTimed(c, payload, secret, default, 0, now) == Err(NoSecret)
  {
  }

  /** What a token must be to be accepted with payload p. */
  ghost predicate Genuine(c: Codec, token: string, key: string, leeway: int, now: int, p: Fields) {
    var parts := Split(token, '.');
    |parts| == 3 &&
    var header, payload := Decode(parts[0]), Decode(parts[1]);
    header.Some? && c.load(header.value).Object? &&
    "alg" in c.load(header.value).fields && c.load(header.value).fields["alg"] == Str("HS256") &&
    Decode(parts[2]) == Some(c.mac(key, parts[0] + "." + parts[1])) &&
    Ascii(parts[1]) && payload.Some? && c.load(payload.value) == Object(p) &&
    ("exp" in p && p["exp"] != Null ==> IntOf(c, p["exp"]).Some? && now <= IntOf(c, p["exp"]).value + leeway)
  }

  /** Of all strings just the genuine tokens are accepted. */
  lemma VerifyJwtMeaning(c: Codec, token: string, key: string, secret: Option<string>, default: Option<string>,
                         leeway: int, now: int, p: Fields)
    requires InUse(key, secret, default)
    ensures VerifyJwt(c, token, secret, default, leeway, now) == Ok(p) <==> Genuine(c, token, key, leeway, now, p)
  {
    var parts := Split(token, '.');
    if |parts| == 3 {
      assert parts[..2] == [parts[0], parts[1]];
      JoinThree(parts[0], parts[1], parts[2]);
    }
  }

  /** An expiry of the payload's own, a number or what int() makes one of, rules over expires_in and is stretched by the leeway. */
  lemma JwtOwnExpiry(c: Codec, payload: Fields, exp: int, secret: Option<string>, default: Option<string>,
                     expiresIn: Option<int>, created: int, leeway: int, now: int)
    requires "exp" in payload && (payload["exp"] == Int(exp) || payload["exp"] == Str(IntText(exp)) ||
                                    (payload["exp"].Other? && c.intOf(payload["exp"].json) == Some(exp)))
    requires Secret(secret, default).Some?
    requires c.load(c.dump(HEADER)) == Object(HEADER) && c.load(c.dump(payload)) == Object(payload)
    ensures var token := CreateJwt(c, payload, secret, default, "HS256", expiresIn, created);
            token.Ok? && VerifyJwt(c, token.value, secret, default, leeway, now) ==
              if now <= exp + leeway then Ok(payload) else Err(Expired)
  {
    ParseIntText(exp);
    JwtRoundTrip(c, payload, secret, secret, default, expiresIn, created, leeway, now);
  }

  /** With an added expiry the token lives up to and including its last second, and by the leeway longer. */
  lemma JwtLifetime(c: Codec, payload: Fields, secret: string, expiresIn: int, created: int, leeway: int, now: int)
    requires "exp" !in payload
    requires c.load(c.dump(HEADER)) == Object(HEADER)
    requires var p := payload["exp" := Int(created + expiresIn)]; c.load(c.dump(p)) == Object(p)
    ensures var token := CreateJwt(c, payload, Some(secret), Some(secret), "HS256", Some(expiresIn), created);
            token.Ok? &&
            VerifyJwt(c, token.value, Some(secret), Some(secret), leeway, now) ==
              if now <= created + expiresIn + leeway then Ok(payload["exp" := Int(created + expiresIn)]) else Err(Expired)
  {
    JwtRoundTrip(c, payload, Some(secret), Some(secret), Some(secret), Some(expiresIn), created, leeway, now);
  }

  /** A token whose payload holds a null "exp" is accepted at every time, whatever expires_in says. */
  lemma NullExpiryNeverExpires(c: Codec, payload: Fields, secret: Option<string>, default: Option<string>,
                               expiresIn: int, created: int, leeway: int, now: int)
    requires "exp" in payload && payload["exp"] == Null && Secret(secret, default).Some?
    requires c.load(c.dump(HEADER)) == Object(HEADER) && c.load(c.dump(payload)) == Object(payload)
    ensures var token := CreateJwt(c, payload, secret, default, "HS256", Some(expiresIn), created);
            token.Ok? && VerifyJwt(c, token.value, secret, default, leeway, now) == Ok(payload)
  {
    JwtRoundTrip(c, payload, secret, secret, default, Some(expiresIn), created, leeway, now);
  }

  // ---- timed tokens --------------------------------------------------------

  function CreateTimed(c: Codec, fields: Fields, secret: Option<string>, default: Option<string>, expiresIn: int, now: int)
    : Result<string, TokenError>
  {
    var key := Secret(secret, default);
    if key.None? then Err(NoSecret)
    else
      var input := Segment(c, fields) + "." + IntText(now + expiresIn);
      Ok(input + "." + Encode(c.mac(key.value, input)))
  }

  function VerifyTimed(c: Codec, token: string, secret: Option<string>, default: Option<string>, now: int)
    : Result<Fields, TokenError>
  {
    var key := Secret(secret, default);
    var parts := Split(token, '.');
    if key.None? then Err(NoSecret)
    else if |parts| != 3 then Err(InvalidStructure)
    else
      var expiry := ParseInt(parts[1]);
      var sig := Decode(parts[2]);
      if expiry.None? then Err(UnreadableExpiry)
      else if !Ascii(parts[0]) || !Ascii(parts[1]) then Err(NotAscii)
      else if sig.None? then Err(InvalidSignatureEncoding)
      else if sig.value != c.mac(key.value, parts[0] + "." + parts[1]) then Err(InvalidSignature)
      else if now > expiry.value then Err(Expired)
      else
        var payload := LoadSegment(c, parts[0]);
        if payload.Object? then Ok(payload.fields) else Err(UnreadablePayload)
  }

  /** A timed token is payload, last second and signature; the key in use signs the first two. */
  lemma TimedForm(c: Codec, fields: Fields, key: string, secret: Option<string>, default: Option<string>, expiresIn: int, now: int)
    requires InUse(key, secret, default)
    ensures var input := Encode(c.dump(fields)) + "." + IntText(now + expiresIn);
            CreateTimed(c, fields, secret, default, expiresIn, now) == Ok(input + "." + Encode(c.mac(key, input)))
  {
  }

  /** Of all strings just those are accepted that the key in use signed and whose last second has not passed. */
  lemma VerifyTimedMeaning(c: Codec, token: string, key: string, secret: Option<string>, default: Option<string>, now: int, p: Fields)
    requires InUse(key, secret, default)
    ensures VerifyTimed(c, token, secret, default, now) == Ok(p) <==>
            var parts := Split(token, '.');
            |parts| == 3 && Ascii(parts[1]) && ParseInt(parts[1]).Some? && now <= ParseInt(parts[1]).value &&
            Decode(parts[2]) == Some(c.mac(key, parts[0] + "." + parts[1])) &&
            Ascii(parts[0]) && Decode(parts[0]).Some? && c.load(Decode(parts[0]).value) == Object(p)
  {
  }

  /** A timed token gives back its object up to and including its last second, past or future. */
  lemma TimedRoundTrip(c: Codec, fields: Fields, secret: Option<string>, default: Option<string>,
                       expiresIn: int, created: int, now: int)
    requires Secret(secret, default).Some?
    requires c.load(c.dump(fields)) == Object(fields)
    ensures var token := CreateTimed(c, fields, secret, default, expiresIn, created);
            token.Ok? && VerifyTimed(c, token.value, secret, default, now) ==
              if now > created + expiresIn then Err(Expired) else Ok(fields)
  {
    var s, t := Segment(c, fields), IntText(created + expiresIn);
    var sig := c.mac(Secret(secret, default).value, s + "." + t);
    EncodeChars(c.dump(fields));
    EncodeChars(sig);
    IntTextChars(created + expiresIn);
    PlainIsAscii(s);
    PlainIsAscii(t);
    SplitJoin([s, t, Encode(sig)], '.');
    JoinThree(s, t, Encode(sig));
    ParseIntText(created + expiresIn);
    RoundTrip(sig);
    SegmentLoads(c, fields);
  }
}
