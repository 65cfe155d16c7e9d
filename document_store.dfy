/**
 * The decision logic of `POST /api/documents` and `GET /api/documents/:textId`
 * over the document collection, reduced to a map from identifier to envelope
 * that POST upserts.
 */
module DocumentStore {
  import opened Wrappers
  import opened Hex
  import opened Primitives
  import opened CipherCodec

  const TEXT_ID_REQUIRED := "textId is required"
  const DATA_REQUIRED := "data field is required"
  const DOCUMENT_NOT_FOUND := "Document not found"
  const SAVED := "Document saved successfully"
  const INTERNAL_ERROR := "Internal server error"
  /** The leading words of the TypeError Node's `cipher.update` throws for a
      value that is neither a string nor a buffer. */
  const INVALID_DATA_TYPE := "The \"data\" argument must be of type string or an instance of Buffer, TypedArray, or DataView."

  /** A field of the parsed JSON request body; `Undefined` when it is absent.
      `Compound` is an object or an array. */
  datatype Json = Undefined | Null | Bool(b: bool) | Number(x: real) | Str(s: string) | Compound

  /** JavaScript truthiness, as `!v` tests it (JSON has no NaN): undefined and
      null are falsy, and a string is truthy exactly when it is not empty. */
  predicate Truthy(v: Json)
    ensures Truthy(v) ==> !v.Undefined? && !v.Null?
    ensures v.Str? ==> (Truthy(v) <==> v.s != "")
  {
    match v
    case Undefined => false
    case Null => false
    case Bool(b) => b
    case Number(x) => x != 0.0
    case Str(s) => s != ""
    case Compound => true
  }

  datatype Body = Body(textId: Json, data: Json)

  /** A handler's reply: the status code and the JSON it carries. */
  datatype Response =
    | Saved(textId: string, data: string)   // 200, with message SAVED
    | Found(textId: string, data: string)   // 200
    | BadRequest(error: string)             // 400
    | NotFound                              // 404, error DOCUMENT_NOT_FOUND
    | InternalError(message: string)        // 500, error INTERNAL_ERROR and the thrown message
  {
    function Status(): nat {
      match this
      case Saved(_, _) => 200
      case Found(_, _) => 200
      case BadRequest(_) => 400
      case NotFound => 404
      case InternalError(_) => 500
    }

    /** The reply's `error` field; empty for a 200. */
    function Error(): (e: string) {
      match this
      case Saved(_, _) => ""
      case Found(_, _) => ""
      case BadRequest(error) => error
      case NotFound => DOCUMENT_NOT_FOUND
      case InternalError(_) => INTERNAL_ERROR
    }

    /** The reply's `message` field; empty where the reply has none. */
    function Message(): (m: string) {
      match this
      case Saved(_, _) => SAVED
      case Found(_, _) => ""
      case BadRequest(_) => ""
      case NotFound => ""
      case InternalError(message) => message
    }
  }

  /** A body that gets past both checks and whose data `encrypt` accepts:
      a string, or a falsy value that its `!text` guard turns into ''. */
  predicate Accepted(body: Body) {
    && Truthy(body.textId)
    && !body.data.Undefined? && !body.data.Null?
    && (body.data.Str? || !Truthy(body.data))
  }

  /** The text an accepted data field stands for once it has been through
      `encrypt` and `decrypt`. */
  function TextOf(data: Json): (text: string) {
    if data.Str? then data.s else ""
  }

  /**
   * The document collection. `docs` maps each identifier to the stored
   * envelope; `Contents` is the text each one holds. The invariant is that
   * every stored envelope decrypts, under its own identifier, to its text.
   */
  class Store {
    const crypto: Crypto
    const secret: string
    var docs: map<string, string>
    ghost var Contents: map<string, string>

    ghost predicate Valid()
      reads this
    {
      && Sound(crypto)
      && docs.Keys == Contents.Keys
      && forall id :: id in docs ==> Decrypt(crypto, secret, docs[id], id) == Ok(Contents[id])
    }

    constructor (crypto: Crypto, secret: string)
      requires Sound(crypto)
      ensures Valid()
      ensures this.crypto == crypto && this.secret == secret
      ensures docs == map[] && Contents == map[]
    {
      this.crypto := crypto;
      this.secret := secret;
      docs := map[];
      Contents := map[];
    }

    /**
     * `POST /api/documents`, with `iv` the octets `encrypt` draws. The
     * identifier is checked before the data, a rejected request leaves the
     * collection as it was, and an accepted one replaces or adds exactly the
     * envelope under its identifier and echoes the text.
     */
    method Post(body: Body, iv: Iv) returns (resp: Response)
      requires Valid()
      requires body.textId.Str? || !Truthy(body.textId)
      modifies this
      ensures Valid()
      ensures !Truthy(body.textId) ==>
        resp == BadRequest(TEXT_ID_REQUIRED) && docs == old(docs) && Contents == old(Contents)
      ensures Truthy(body.textId) && (body.data.Undefined? || body.data.Null?) ==>
        resp == BadRequest(DATA_REQUIRED) && docs == old(docs) && Contents == old(Contents)
      ensures Truthy(body.textId) && Truthy(body.data) && !body.data.Str? ==>
        resp == InternalError(INVALID_DATA_TYPE) && docs == old(docs) && Contents == old(Contents)
      ensures Accepted(body) ==>
        var id := body.textId.s;
        var envelope := if body.data.Str? then Encrypt(crypto, secret, body.data.s, id, iv) else "";
        && docs == old(docs)[id := envelope]
        && Contents == old(Contents)[id := TextOf(body.data)]
        && resp == Saved(id, TextOf(body.data))
    {
      if !Truthy(body.textId) {
        return BadRequest(TEXT_ID_REQUIRED);
      }
      var textId := body.textId.s;
      if body.data.Undefined? || body.data.Null? {
        return BadRequest(DATA_REQUIRED);
      }
      var envelope;
      if !Truthy(body.data) {
        envelope := "";
      } else if !body.data.Str? {
        return InternalError(INVALID_DATA_TYPE);
      } else {
        envelope := Encrypt(crypto, secret, body.data.s, textId, iv);
        RoundTrip(crypto, secret, body.data.s, textId, iv);
      }
      docs := docs[textId := envelope];
      Contents := Contents[textId := TextOf(body.data)];
      var echoed := Decrypt(crypto, secret, envelope, textId);
      match echoed
      case Ok(text) =>
        resp := Saved(textId, text);
      case Err(message) =>
        resp := InternalError(message);
    }

    /**
     * `GET /api/documents/:textId`. A missing identifier is the only 404 and
     * never reaches `decrypt`; a stored one answers 200 with the text its
     * envelope decrypts to, or 500 with the single decryption error.
     */
    method Get(textId: string) returns (resp: Response)
      ensures resp.Status() == 404 <==> textId !in docs
      ensures resp.Found? ==>
        resp.textId == textId && textId in docs &&
        Decrypt(crypto, secret, docs[textId], textId) == Ok(resp.data)
      ensures resp.Status() == 500 ==>
        resp == InternalError(DECRYPT_FAILED) && textId in docs &&
        Decrypt(crypto, secret, docs[textId], textId).Err?
      ensures resp.Found? || resp.NotFound? || resp.InternalError?
      ensures Valid() && textId in docs ==> resp == Found(textId, Contents[textId])
    {
      if textId !in docs {
        return NotFound;
      }
      match Decrypt(crypto, secret, docs[textId], textId)
      case Ok(text) =>
        resp := Found(textId, text);
      case Err(message) =>
        resp := InternalError(message);
    }
  }

  /** Store "hello world" under "doc1", read it back, overwrite it with
      "updated", read that back, and look up an identifier never stored. */
  method EndToEnd(crypto: Crypto, secret: string, iv1: Iv, iv2: Iv)
    requires Sound(crypto)
  {
    var store := new Store(crypto, secret);
    var saved := store.Post(Body(Str("doc1"), Str("hello world")), iv1);
    assert saved == Saved("doc1", "hello world");
    var envelope := store.docs["doc1"];
    assert |envelope| > IV_FIELD_LENGTH && envelope[IV_FIELD_LENGTH] == DELIMITER;
    assert IsLowerHex(envelope[..IV_FIELD_LENGTH]);
    var got := store.Get("doc1");
    assert got == Found("doc1", "hello world");
    saved := store.Post(Body(Str("doc1"), Str("updated")), iv2);
    assert store.docs.Keys == {"doc1"};
    got := store.Get("doc1");
    assert got == Found("doc1", "updated");
    got := store.Get("missing");
    assert got == NotFound;
  }
}
