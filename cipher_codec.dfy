/**
 * `encrypt` and `decrypt`: the text of a document is sealed into an envelope
 * `hex(iv) ":" hex(ciphertext)` under the key derived from its identifier,
 * and opened again; every failure to open surfaces as one error.
 */
module CipherCodec {
  import opened Wrappers
  import opened Hex
  import opened JsString
  import opened Primitives
  import opened KeyDeriver

  /** Separates the IV field from the ciphertext field. */
  const DELIMITER := ':'
  /** The one error `decrypt` reports, whatever went wrong. */
  const DECRYPT_FAILED := "Failed to decrypt data"

  /** Where the delimiter of a well-formed envelope sits: after the IV field. */
  const IV_FIELD_LENGTH := 2 * IV_LENGTH

  /**
   * `encrypt(text, textId)` with `iv` the 16 random octets it draws. The empty
   * text is its own envelope; any other text gives a 32-digit IV field, the
   * delimiter and an even-length ciphertext field, all lower-case hex.
   */
  function Encrypt(c: Crypto, secret: string, text: string, textId: string, iv: Iv): (envelope: string)
    ensures text == "" <==> envelope == ""
    ensures text != "" ==>
      && |envelope| > IV_FIELD_LENGTH
      && envelope[IV_FIELD_LENGTH] == DELIMITER
      && IsLowerHex(envelope[..IV_FIELD_LENGTH])
      && IsLowerHex(envelope[IV_FIELD_LENGTH + 1..])
      && |envelope[IV_FIELD_LENGTH + 1..]| % 2 == 0
  {
    if text == "" then ""
    else
      var key := DeriveKey(c, secret, textId);
      Hex.Encode(iv) + [DELIMITER] + Hex.Encode(c.aesEncrypt(key, iv, text))
  }

  /** Why an envelope did not open; logged by the source, never returned. */
  datatype Cause =
    | FieldCount(fields: nat)   // `split(':')` did not give two fields
    | IvLength(octets: nat)     // `createDecipheriv` refused an IV that is not 16 octets
    | OddHexLength              // `decipher.update` refused hex input of odd JavaScript length
    | CipherRejected            // `decipher.update`/`final` threw (bad length or padding)

  /**
   * The body of `decrypt`'s `try` block, for a non-empty envelope: each step
   * refuses in turn, and an envelope gets past all of them exactly when the
   * cipher recovers a text from it, which is then the result.
   */
  function Open(c: Crypto, key: Key, envelope: string): (r: Result<string, Cause>)
    ensures r.Err? && r.error.FieldCount? <==> Count(envelope, DELIMITER) != 1
    ensures Count(envelope, DELIMITER) == 1 ==>
      var fields := Split(envelope, DELIMITER);
      var iv := Hex.Decode(fields[0]);
      && (r.Err? && r.error.IvLength? <==> |iv| != IV_LENGTH)
      && (r.Err? && r.error.OddHexLength? <==> |iv| == IV_LENGTH && Utf16Length(fields[1]) % 2 == 1)
      && (r.Ok? <==>
            |iv| == IV_LENGTH && Utf16Length(fields[1]) % 2 == 0 &&
            c.aesDecrypt(key, iv, Hex.Decode(fields[1])).Some?)
      && (r.Ok? ==> c.aesDecrypt(key, iv, Hex.Decode(fields[1])) == Some(r.value))
  {
    var fields := Split(envelope, DELIMITER);
    if |fields| != 2 then Err(FieldCount(|fields|))
    else
      var iv := Hex.Decode(fields[0]);
      if |iv| != IV_LENGTH then Err(IvLength(|iv|))
      else if Utf16Length(fields[1]) % 2 == 1 then Err(OddHexLength)
      else match c.aesDecrypt(key, iv, Hex.Decode(fields[1]))
        case None => Err(CipherRejected)
        case Some(text) => Ok(text)
  }

  /**
   * `decrypt(envelope, textId)`. The empty envelope is the empty text; an
   * envelope without exactly one delimiter never opens; every failure is the
   * single DECRYPT_FAILED error and carries no text; otherwise the text is
   * what `Open` recovers under the identifier's key.
   */
  function Decrypt(c: Crypto, secret: string, envelope: string, textId: string): (r: Result<string, string>)
    ensures envelope == "" ==> r == Ok("")
    ensures r.Err? ==> r.error == DECRYPT_FAILED
    ensures envelope != "" && Count(envelope, DELIMITER) != 1 ==> r.Err?
    ensures envelope != "" ==>
      (r.Ok? <==> Open(c, DeriveKey(c, secret, textId), envelope).Ok?)
    ensures envelope != "" && r.Ok? ==>
      Open(c, DeriveKey(c, secret, textId), envelope) == Ok(r.value)
  {
    if envelope == "" then Ok("")
    else match Open(c, DeriveKey(c, secret, textId), envelope)
      case Ok(text) => Ok(text)
      case Err(_) => Err(DECRYPT_FAILED)
  }

  /** A ciphertext field of odd length, counted in UTF-16 code units as
      JavaScript counts it, is refused with the one error, whatever the IV
      field and the cipher. */
  lemma OddCiphertextFieldRejected(c: Crypto, secret: string, envelope: string, textId: string)
    requires Count(envelope, DELIMITER) == 1
    requires Utf16Length(Split(envelope, DELIMITER)[1]) % 2 == 1
    ensures Decrypt(c, secret, envelope, textId) == Err(DECRYPT_FAILED)
  {
  }

  /** A ciphertext field that ends in one astral character has even JavaScript
      length, so it is not refused for its length; the hex reader stops at
      that character and the envelope opens to the text it was made from. */
  lemma AstralTrailerOpens(c: Crypto, secret: string, text: string, textId: string, iv: Iv)
    requires Sound(c)
    requires text != ""
    ensures Decrypt(c, secret, Encrypt(c, secret, text, textId, iv) + "\U{1F600}", textId) == Ok(text)
  {
    var key := DeriveKey(c, secret, textId);
    var ct := c.aesEncrypt(key, iv, text);
    var a, b := Hex.Encode(iv), Hex.Encode(ct) + "\U{1F600}";
    var e := Encrypt(c, secret, text, textId, iv) + "\U{1F600}";
    LowerHexHasNo(a, DELIMITER);
    LowerHexHasNo(Hex.Encode(ct), DELIMITER);
    assert DELIMITER !in b;
    assert Join([a, b], DELIMITER) == e;
    SplitJoin([a, b], DELIMITER);
    assert Split(e, DELIMITER) == [a, b];
    DecodeEncode(iv);
    DecodeStops(ct, "\U{1F600}");
    assert Utf16Length("\U{1F600}") == 2;
    UtfLengthAppend(Hex.Encode(ct), "\U{1F600}");
    assert c.aesDecrypt(key, iv, ct) == Some(text);
  }

  /** For example: an envelope of `encrypt`'s shape with one digit more. */
  lemma OddCiphertextRejected(c: Crypto, secret: string, textId: string, iv: Iv, ct: Bytes)
    ensures Decrypt(c, secret, Hex.Encode(iv) + [DELIMITER] + Hex.Encode(ct) + "0", textId)
            == Err(DECRYPT_FAILED)
  {
    var a, b := Hex.Encode(iv), Hex.Encode(ct) + "0";
    var e := Hex.Encode(iv) + [DELIMITER] + Hex.Encode(ct) + "0";
    LowerHexHasNo(a, DELIMITER);
    assert IsLowerHex(b);
    LowerHexHasNo(b, DELIMITER);
    assert Join([a, b], DELIMITER) == e;
    SplitJoin([a, b], DELIMITER);
    assert Split(e, DELIMITER) == [a, b];
    assert Count(e, DELIMITER) == 1;
    DecodeEncode(iv);
    assert forall i :: 0 <= i < |b| ==> !IsAstral(b[i]);
    assert Utf16Length(b) % 2 == 1;
    assert Open(c, DeriveKey(c, secret, textId), e) == Err(OddHexLength);
  }

  /**
   * The envelope of a non-empty text splits into exactly its two hex fields,
   * so the field-count guard of `decrypt` never rejects it, and its first
   * field decodes to the IV.
   */
  lemma EnvelopeFields(c: Crypto, secret: string, text: string, textId: string, iv: Iv)
    requires text != ""
    ensures var ct := c.aesEncrypt(DeriveKey(c, secret, textId), iv, text);
      Split(Encrypt(c, secret, text, textId, iv), DELIMITER) == [Hex.Encode(iv), Hex.Encode(ct)]
    ensures Count(Encrypt(c, secret, text, textId, iv), DELIMITER) == 1
    ensures Hex.Decode(Split(Encrypt(c, secret, text, textId, iv), DELIMITER)[0]) == iv
  {
    var ct := c.aesEncrypt(DeriveKey(c, secret, textId), iv, text);
    var a, b := Hex.Encode(iv), Hex.Encode(ct);
    LowerHexHasNo(a, DELIMITER);
    LowerHexHasNo(b, DELIMITER);
    assert Join([a, b], DELIMITER) == a + [DELIMITER] + b;
    SplitJoin([a, b], DELIMITER);
    DecodeEncode(iv);
  }

  /** Round trip: with a sound cipher, decrypting under the same identifier
      gives back the text that was encrypted, the empty text included. */
  lemma RoundTrip(c: Crypto, secret: string, text: string, textId: string, iv: Iv)
    requires Sound(c)
    ensures Decrypt(c, secret, Encrypt(c, secret, text, textId, iv), textId) == Ok(text)
  {
    if text != "" {
      var key := DeriveKey(c, secret, textId);
      var ct := c.aesEncrypt(key, iv, text);
      EnvelopeFields(c, secret, text, textId, iv);
      DecodeEncode(ct);
      assert c.aesDecrypt(key, iv, ct) == Some(text);
    }
  }

  /** Text without a delimiter is refused with the one error. */
  lemma NoDelimiterRejected(c: Crypto, secret: string, textId: string)
    ensures Decrypt(c, secret, "not-a-valid-envelope", textId) == Err(DECRYPT_FAILED)
  {
    var e := "not-a-valid-envelope";
    assert forall i :: 0 <= i < |e| ==> e[i] != DELIMITER;
    assert Count(e, DELIMITER) == 0;
  }

  /** Three fields are refused with the one error. */
  lemma ThreeFieldsRejected(c: Crypto, secret: string, textId: string)
    ensures Decrypt(c, secret, "00:11:22", textId) == Err(DECRYPT_FAILED)
  {
  }

  /** Two fields whose IV field decodes to one octet are refused with the one
      error, whatever the ciphertext field. */
  lemma ShortIvRejected(c: Crypto, secret: string, textId: string, ct: Bytes)
    ensures Decrypt(c, secret, "00:" + Hex.Encode(ct), textId) == Err(DECRYPT_FAILED)
  {
    var b := Hex.Encode(ct);
    LowerHexHasNo(b, DELIMITER);
    SplitUnseparated(b, DELIMITER);
    SplitAfter("00", b, DELIMITER);
    assert "00:" + b == "00" + [DELIMITER] + b;
    assert Hex.Decode("00") == [0];
  }
}
