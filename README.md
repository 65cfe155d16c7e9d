# Encrypted text documents: a Dafny model of the codec and the document handlers

The server stores a text under a caller-chosen identifier (`textId`). Before storing it, the
server encrypts the text with AES-256-CBC. The key is SHA-256 of the identifier followed by a
server secret. The stored value is an envelope `hex(iv) ":" hex(ciphertext)`. `GET` reads
the envelope back and decrypts it under the identifier it was asked for.

This project models the following:

- `generateKey`, the key derivation (module `KeyDeriver`).
- `encrypt` and `decrypt`, the envelope codec (module `CipherCodec`). It rests on:
  - a concrete model of Node's hex encoding and decoding (module `Hex`);
  - a concrete model of JavaScript's `split` on one character, with its inverse `join`
    (module `JsString`).
- The decision logic of the `POST /api/documents` and `GET /api/documents/:textId` handlers.
  They run over the document collection, which is a map from identifier to envelope that POST
  upserts: class `DocumentStore.Store`.

SHA-256, AES-256-CBC and PKCS#7 padding stay abstract. They are the function-valued fields of
a `Primitives.Crypto` value, which is passed in as a parameter. The model assumes one thing
about them, `Primitives.Sound`: under the same key and IV, decryption inverts encryption.
Every result that needs this assumption takes `Sound(c)` as a hypothesis. The random IV of
`encrypt` is a parameter (an oracle) of type `Iv`, a sequence of exactly 16 octets. The server
secret is a parameter as well.

What is proved:

- Hex decoding inverts hex encoding.
- `split` and `join` are inverse to each other.
- For a fixed secret, the hash input determines the identifier.
- The envelope shape: a 32-digit lower-case IV field, one `':'`, then an even-length hex field.
- Every envelope that `encrypt` produces for a non-empty text splits into exactly two fields.
- `decrypt(encrypt(p, id), id) == p` for every text, the empty text included.
- Every failure of `decrypt` is the single error `Failed to decrypt data`, and no text comes
  with it.
- The validation order and the frame of POST.
- GET separates 404 from 500.
- The store invariant: every stored envelope decrypts to the text it was stored with. This is
  proved for requests whose `textId` is a string or falsy; see "## Left out" for the others.

Three details of the code shape the model:

- The code has no IV-length check of its own. Node's `createDecipheriv` refuses an IV that is
  not 16 octets inside the `try` (src/index.ts:68). The model puts that refusal in the same
  place (`CipherCodec.Open`, cause `IvLength`).
- Reading the IV field with `Buffer.from(field, 'hex')` (src/index.ts:65) is lenient. It
  stops at the first pair that is not two hex digits and drops a last unpaired character, so
  an IV field such as 32 hex digits followed by `zz` still yields 16 octets. `Hex.Decode`
  does the same. The ciphertext field is different: `decipher.update(field, 'hex', ...)`
  (src/index.ts:69) refuses hex input whose JavaScript length is odd. JavaScript counts that
  length in UTF-16 code units, so a character above U+FFFF counts twice. The model refuses
  the same fields (cause `OddHexLength`), counting with `JsString.Utf16Length`.
  `Hex.Decode` reads characters, not code units. The two readings agree, because reading
  stops at the first character that is not a hex digit, and every hex digit is one code unit.
- Only a missing or null `data` gets 400 (src/index.ts:111-116). A falsy non-string value
  (`false`, `0`) passes both checks, and `encrypt`'s `!text` guard (src/index.ts:42) turns it
  into the empty envelope. A truthy non-string value makes `cipher.update` throw, which gives
  500. The model has both paths.

## Model

| member | source | states |
|---|---|---|
| `Hex.DigitValue` | src/index.ts:65 | a character has a hex value exactly when it is a digit of either case; the value is below 16 and is the nibble whose lower-case digit is the character, lower-cased |
| `Hex.Encode` | src/index.ts:51 | `toString('hex')` gives two lower-case hex digits per octet |
| `Hex.Decode` | src/index.ts:65 | `Buffer.from(s, 'hex')` yields at most one octet per two characters |
| `Hex.DecodeEncode` | src/index.ts:65 | decoding the hex of any octet string gives that octet string back |
| `Hex.DecodeLength` | src/index.ts:65 | a field of hex digits only decodes in full, to half as many octets as it has characters |
| `Hex.DecodeStops` | src/index.ts:65 | after the encoding of some octets, a character that is not a hex digit stops the reading, and what follows is ignored |
| `Hex.LowerHexHasNo` | src/index.ts:51 | a lower-case hex field contains no `':'` |
| `JsString.Count` | src/index.ts:61 | the count of a character is zero exactly when the character does not occur |
| `JsString.Split` | src/index.ts:59 | `split(':')` gives one more field than there are delimiters, and no field holds the delimiter |
| `JsString.JoinSplit` | src/index.ts:59 | joining the fields of a split with the delimiter gives the original string |
| `JsString.SplitJoin` | src/index.ts:59 | splitting the join of delimiter-free fields gives exactly those fields |
| `JsString.SplitUnseparated` | src/index.ts:59 | a string without the delimiter is a single field |
| `JsString.SplitAfter` | src/index.ts:59 | a delimiter-free prefix followed by the delimiter is the first field, and the rest splits on its own |
| `JsString.Utf16Length` | src/index.ts:69 | JavaScript's `length` lies between the character count and twice it, and equals the character count when no character is above U+FFFF |
| `JsString.UtfLengthAppend` | src/index.ts:69 | the JavaScript length of a concatenation is the sum of the lengths |
| `KeyDeriver.HashInput` | src/index.ts:37 | the hashed string is the identifier followed by the secret, with no separator |
| `KeyDeriver.DeriveKey` | src/index.ts:36-39 | `generateKey`: the key is the digest of the hash input; `KeyDeterminedByHashInput` states that it depends on the identifier and the secret only |
| `KeyDeriver.HashInputInjective` | src/index.ts:36-39 | for a fixed secret, two identifiers give the same hash input exactly when they are equal |
| `KeyDeriver.KeyDeterminedByHashInput` | src/index.ts:36-39 | the key depends on the pair (identifier, secret) only, through the hash input |
| `CipherCodec.Encrypt` | src/index.ts:41-52 | the empty text gives the empty envelope and only it does; any other text gives a 32-digit lower-case IV field, `':'`, then an even-length lower-case hex field |
| `CipherCodec.Open` | src/index.ts:57-72 | wrong field count happens exactly when there is not exactly one `':'`; then an IV refusal happens exactly when the first field does not decode to 16 octets; then a ciphertext field of odd length in UTF-16 code units is refused; the envelope opens exactly when, past these steps, the cipher recovers a text from the decoded second field under the decoded IV, and that text is the result |
| `CipherCodec.Decrypt` | src/index.ts:54-77 | the empty envelope is the empty text; any failure is the single `Failed to decrypt data` error; no envelope without exactly one `':'` opens; a non-empty envelope opens exactly when `Open` succeeds, and then gives `Open`'s text |
| `CipherCodec.EnvelopeFields` | src/index.ts:45-63 | the envelope of a non-empty text splits into exactly the hex of the IV and the hex of the ciphertext, has one `':'`, and its first field decodes to the IV |
| `CipherCodec.RoundTrip` | src/index.ts:41-72 | with a sound cipher, decrypting under the same identifier gives back the text that was encrypted, for every text |
| `CipherCodec.NoDelimiterRejected` | src/index.ts:59-76 | `not-a-valid-envelope` is refused with the single error |
| `CipherCodec.ThreeFieldsRejected` | src/index.ts:59-76 | an envelope with three fields is refused with the single error |
| `CipherCodec.ShortIvRejected` | src/index.ts:65-76 | two fields whose IV field decodes to one octet are refused with the single error, whatever the ciphertext field |
| `CipherCodec.OddCiphertextFieldRejected` | src/index.ts:69-76 | an envelope with exactly one `':'` whose ciphertext field has odd length in UTF-16 code units is refused with the single error, whatever the IV field and the cipher |
| `CipherCodec.OddCiphertextRejected` | src/index.ts:69-76 | for example, `hex(iv) ':' hex(ct)` followed by one more digit is refused with the single error, whatever the IV and the cipher |
| `CipherCodec.AstralTrailerOpens` | src/index.ts:65-72 | with a sound cipher, an envelope of `encrypt` followed by one character above U+FFFF has even JavaScript length, is not refused, and opens to the original text, because hex reading stops at that character |
| `DocumentStore.Truthy` | src/index.ts:104 | JavaScript's `!v` on a JSON value: undefined and null are falsy, and a string is truthy exactly when it is not empty (also the `!text` guard at src/index.ts:42) |
| `DocumentStore.Store.constructor` | src/index.ts:98 | the collection starts empty and satisfies the invariant that every envelope decrypts to its text |
| `DocumentStore.Store.Post` | src/index.ts:100-149 | a falsy identifier gives 400 `textId is required` before data is looked at; missing or null data gives 400 `data field is required`; truthy non-string data gives 500; none of these changes the collection; an accepted request sets only its own identifier's envelope to `encrypt(data, textId)` (the empty envelope for falsy data), keeps the invariant and echoes the text |
| `DocumentStore.Store.Get` | src/index.ts:151-185 | the status is 404 exactly when the identifier is not stored; a 200 carries what the stored envelope decrypts to; a 500 happens only for a stored identifier whose envelope fails to decrypt and carries the single error; under the invariant a stored identifier always gives 200 with its text |

## Left out

- HTTP transport: Express setup, CORS, the JSON body parser, the root route and the serverless
  adapter. The `SECRET_KEY`/`CLIENT_URL` presence checks at start-up are left out too; the
  secret is a parameter.
- The MongoDB connection, the schema and its validators are left out, and so are the
  `createdAt`/`updatedAt` timestamps. The collection is a map that POST upserts. Whether
  Mongoose's `required` validator refuses the empty envelope is library behaviour and is not
  modelled. Database errors, and the 500 they would give, are not modelled either.
- The insides of SHA-256, AES-256-CBC, PKCS#7 padding and UTF-8 conversion are abstract. The
  cipher's only assumed property is `Sound`. Because of this, "a wrong identifier is refused"
  is not stated: it holds only with high probability.
- The randomness of the IV, and with it "two encryptions of one text differ", are
  probabilistic and are not modelled. The IV is a parameter.
- Texts are sequences of Unicode scalar values. A JavaScript string with an unpaired surrogate
  has no counterpart in the model. Such a string would not survive the UTF-8 round trip in
  the source.
- DocumentStore.Store.Post: requires the `textId` field to be a string or a falsy value, so
  the store invariant is proved only for such requests. A truthy non-string identifier is
  not modelled. In the source it is not harmless. `generateKey` turns it into a string, so an
  object gives the hash input `"[object Object]"` followed by the secret (src/index.ts:37).
  The same object also reaches `findOneAndUpdate({ textId }, ...)` as a query filter
  (src/index.ts:120-121). An object such as `{"$ne": null}` can then match, and overwrite,
  the document of some other identifier. That document's envelope is then sealed under a
  key the identifier does not derive, and a later GET for it fails to decrypt with high
  probability (500). This reading depends on MongoDB's query-operator semantics.
- The text of Node's TypeError for non-string data is modelled only by its leading words. The
  `Received ...` suffix is dropped.
- Logging through `console`, `async`/`await`, and the exact JSON shape of each reply are not
  modelled. A reply is a `Response` value, with its status given by `Status()`.
