/** Password records over PBKDF2 and the layout of AES-GCM tokens; both primitives are arbitrary functions. */
module Encryption {
  import opened Common
  import opened Base64Url
  import opened Text

  /** pbkdf2_hmac("sha256", password, salt, iterations, dklen) */
  type Kdf = (string, Bytes, int, nat) -> Bytes

  const KEY_LENGTH := 32

  /** pbkdf2_sha256$<iterations>$<salt>$<key>; the primitive raises for fewer than one iteration. */
  function HashPassword(kdf: Kdf, password: string, salt: Bytes, iterations: int): Option<string> {
    if iterations < 1 then None
    else Some(Join(["pbkdf2_sha256", IntText(iterations), EncodePadded(salt),
                    EncodePadded(kdf(password, salt, iterations, KEY_LENGTH))], '$'))
  }

  /** Every exception reads as a failed check. */
  function VerifyPassword(kdf: Kdf, stored: Option<string>, password: string): bool {
    if stored.None? then false
    else
      var parts := Split(stored.value, '$');
      if |parts| != 4 || !StartsWith(parts[0], "pbkdf2_sha256") then false
      else
        var iterations, salt, expected := ParseInt(parts[1]), DecodePadded(parts[2]), DecodePadded(parts[3]);
        iterations.Some? && salt.Some? && expected.Some? && iterations.value >= 1 && |expected.value| >= 1 &&
        kdf(password, salt.value, iterations.value, |expected.value|) == expected.value
  }

  /** The record names the scheme, the iterations, the salt and 32 bytes of key, in this order. */
  lemma PasswordRecord(kdf: Kdf, password: string, salt: Bytes, iterations: int)
    ensures HashPassword(kdf, password, salt, iterations) ==
            if iterations < 1 then None
            else Some("pbkdf2_sha256" + "$" + IntText(iterations) + "$" + EncodePadded(salt) + "$"
                      + EncodePadded(kdf(password, salt, iterations, 32)))
  {
    JoinFour("pbkdf2_sha256", IntText(iterations), EncodePadded(salt), EncodePadded(kdf(password, salt, iterations, 32)));
  }

  lemma JoinFour(a: string, b: string, c: string, d: string)
    ensures Join([a, b, c, d], '$') == a + "$" + b + "$" + c + "$" + d
  {
    assert [a, b, c, d][1..] == [b, c, d] && [b, c, d][1..] == [c, d] && [c, d][1..] == [d];
    assert Join([c, d], '$') == c + "$" + d;
    assert Join([b, c, d], '$') == b + "$" + (c + "$" + d);
    assert b + "$" + (c + "$" + d) == b + "$" + c + "$" + d;
    assert a + "$" + (b + "$" + c + "$" + d) == a + "$" + b + "$" + c + "$" + d;
  }

  /** A record of any iteration count and key length is checked with just those; without an iteration or a key it fails. */
  lemma RecordChecked(kdf: Kdf, scheme: string, iterations: int, salt: Bytes, key: Bytes, attempt: string)
    requires '$' !in scheme && |scheme| >= 13 && scheme[..13] == "pbkdf2_sha256"
    ensures VerifyPassword(kdf, Some(Join([scheme, IntText(iterations), EncodePadded(salt), EncodePadded(key)], '$')), attempt)
            <==> iterations >= 1 && key != [] && kdf(attempt, salt, iterations, |key|) == key
  {
    hide *;
    var n, s, k := IntText(iterations), EncodePadded(salt), EncodePadded(key);
    RecordSplits(scheme, iterations, salt, key);
    ParseIntText(iterations);
    PaddedRoundTrip(salt);
    PaddedRoundTrip(key);
    FieldsChecked(kdf, Join([scheme, n, s, k], '$'), scheme, n, s, k, iterations, salt, key, attempt);
  }

  lemma FieldsChecked(kdf: Kdf, stored: string, scheme: string, n: string, s: string, k: string,
                      iterations: int, salt: Bytes, key: Bytes, attempt: string)
    requires Split(stored, '$') == [scheme, n, s, k]
    requires |scheme| >= 13 && scheme[..13] == "pbkdf2_sha256"
    requires ParseInt(n) == Some(iterations) && DecodePadded(s) == Some(salt) && DecodePadded(k) == Some(key)
    ensures VerifyPassword(kdf, Some(stored), attempt) <==> iterations >= 1 && key != [] && kdf(attempt, salt, iterations, |key|) == key
  {
    hide Split, ParseInt, DecodePadded;
    assert StartsWith(scheme, "pbkdf2_sha256");
  }

  /** A record is accepted for exactly the passwords that derive the same key. */
  lemma PasswordRoundTrip(kdf: Kdf, password: string, salt: Bytes, iterations: int, attempt: string)
    requires iterations >= 1 && |kdf(password, salt, iterations, KEY_LENGTH)| == KEY_LENGTH
    ensures HashPassword(kdf, password, salt, iterations).Some?
    ensures VerifyPassword(kdf, HashPassword(kdf, password, salt, iterations), attempt) <==>
            kdf(attempt, salt, iterations, KEY_LENGTH) == kdf(password, salt, iterations, KEY_LENGTH)
  {
    var key := kdf(password, salt, iterations, KEY_LENGTH);
    assert "pbkdf2_sha256"[..13] == "pbkdf2_sha256";
    RecordChecked(kdf, "pbkdf2_sha256", iterations, salt, key, attempt);
  }

  lemma RecordSplits(scheme: string, iterations: int, salt: Bytes, key: Bytes)
    requires '$' !in scheme
    ensures var fields := [scheme, IntText(iterations), EncodePadded(salt), EncodePadded(key)];
            Split(Join(fields, '$'), '$') == fields
  {
    IntTextChars(iterations);
    EncodePaddedChars(salt);
    EncodePaddedChars(key);
    SplitJoin([scheme, IntText(iterations), EncodePadded(salt), EncodePadded(key)], '$');
  }

  // ---- AES-GCM -------------------------------------------------------------

  /** seal(key, nonce, plaintext, aad) and open(key, nonce, sealed, aad). */
  datatype Aead = Aead(seal: (Bytes, Bytes, Bytes, Bytes) -> Bytes, open: (Bytes, Bytes, Bytes, Bytes) -> Option<Bytes>)

  const NONCE_LENGTH := 12
  const TAG_LENGTH := 16

  /** key or self._aes_key: an empty key gives way to the configured one. */
  function AesKey(key: Option<Bytes>, configured: Option<Bytes>): Option<Bytes> {
    if key.Some? && key.value != [] then key else configured
  }

  function TagStart(sealed: Bytes): nat {
    if |sealed| <= TAG_LENGTH then 0 else |sealed| - TAG_LENGTH
  }

  /** nonce | tag | ciphertext, with the tag moved from the back to the middle. */
  function EncryptAes(a: Aead, plaintext: Bytes, aad: Bytes, key: Option<Bytes>, configured: Option<Bytes>, nonce: Bytes)
    : Option<string>
  {
    var k := AesKey(key, configured);
    if k.None? then None
    else
      var sealed := a.seal(k.value, nonce, plaintext, aad);
      Some(EncodePadded(nonce + sealed[TagStart(sealed)..] + sealed[..TagStart(sealed)]))
  }

  function Slice(b: Bytes, lo: nat, hi: nat): Bytes
    requires lo <= hi
  {
    if |b| <= lo then [] else if |b| <= hi then b[lo..] else b[lo..hi]
  }

  function DecryptAes(a: Aead, token: string, aad: Bytes, key: Option<Bytes>, configured: Option<Bytes>): Option<Bytes> {
    var k := AesKey(key, configured);
    var raw := DecodePadded(token);
    if k.None? || raw.None? then None
    else
      var n := NONCE_LENGTH + TAG_LENGTH;
      var tag := Slice(raw.value, NONCE_LENGTH, n);
      var ciphertext := if |raw.value| <= n then [] else raw.value[n..];
      a.open(k.value, Slice(raw.value, 0, NONCE_LENGTH), ciphertext + tag, aad)
  }

  /** Decryption hands the primitive exactly the nonce and the bytes that encryption got from it. */
  lemma LayoutRestored(a: Aead, plaintext: Bytes, aad: Bytes, key: Option<Bytes>, configured: Option<Bytes>, nonce: Bytes)
    requires AesKey(key, configured).Some? && |nonce| == NONCE_LENGTH
    ensures var k := AesKey(key, configured).value;
            var token := EncryptAes(a, plaintext, aad, key, configured, nonce);
            token.Some? &&
            DecryptAes(a, token.value, aad, key, configured) == a.open(k, nonce, a.seal(k, nonce, plaintext, aad), aad)
  {
    var k := AesKey(key, configured).value;
    var sealed := a.seal(k, nonce, plaintext, aad);
    var start := TagStart(sealed);
    var tag, ciphertext := sealed[start..], sealed[..start];
    var raw := nonce + tag + ciphertext;
    PaddedRoundTrip(raw);
    assert Slice(raw, 0, NONCE_LENGTH) == nonce;
    assert Slice(raw, NONCE_LENGTH, NONCE_LENGTH + TAG_LENGTH) == tag;
    assert (if |raw| <= NONCE_LENGTH + TAG_LENGTH then [] else raw[NONCE_LENGTH + TAG_LENGTH..]) == ciphertext;
    assert ciphertext + tag == sealed;
  }

  /** A token is the nonce, the last 16 sealed bytes and the rest, sealed under the key that is passed, if it is not empty, or the configured one. */
  lemma AesLayout(a: Aead, plaintext: Bytes, aad: Bytes, k: Bytes, key: Option<Bytes>, configured: Option<Bytes>, nonce: Bytes,
                  ciphertext: Bytes, tag: Bytes)
    requires (key == Some(k) && k != []) || ((key == None || key == Some([])) && configured == Some(k))
    requires a.seal(k, nonce, plaintext, aad) == ciphertext + tag && |tag| == 16
    ensures EncryptAes(a, plaintext, aad, key, configured, nonce) == Some(EncodePadded(nonce + tag + ciphertext))
    ensures |nonce| == 12 ==>
              DecryptAes(a, EncodePadded(nonce + tag + ciphertext), aad, key, configured) == a.open(k, nonce, ciphertext + tag, aad)
  {
    var sealed := ciphertext + tag;
    assert sealed[|ciphertext|..] == tag && sealed[..|ciphertext|] == ciphertext;
    if |nonce| == 12 {
      LayoutRestored(a, plaintext, aad, key, configured, nonce);
    }
  }

  /** So any sound primitive gives back every plaintext. */
  lemma AesRoundTrip(a: Aead, plaintext: Bytes, aad: Bytes, key: Option<Bytes>, configured: Option<Bytes>, nonce: Bytes)
    requires AesKey(key, configured).Some? && |nonce| == NONCE_LENGTH
    requires var k := AesKey(key, configured).value; a.open(k, nonce, a.seal(k, nonce, plaintext, aad), aad) == Some(plaintext)
    ensures var token := EncryptAes(a, plaintext, aad, key, configured, nonce);
            token.Some? && DecryptAes(a, token.value, aad, key, configured) == Some(plaintext)
  {
    LayoutRestored(a, plaintext, aad, key, configured, nonce);
  }
}
