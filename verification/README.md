# fcrypt envelope model

A Dafny model of the hybrid ("envelope") file encryption in `task_4/fcrypt.py`.
To encrypt, the program draws a fresh 128-bit session key and seals the file
with AES-EAX under that key. It then wraps the session key with RSA-OAEP under the
recipient's public key and writes the four results (ciphertext, tag, nonce,
wrapped key) as a JSON object of base64 strings. To decrypt, it reads the object
back, unwraps the key with the private key, and opens the ciphertext. Plaintext
is released only when the tag verifies.

Modules, one per component:

- `Results` (`results.dfy`): the `Result` and `Option` types. A `Failure` stands
  for the exception Python would raise.
- `Base64` (`base64.dfy`): padded base64 as in section 4 of RFC 4648. The encoder
  is `base64.b64encode`. The decoder follows `base64.b64decode` with `validate`
  left False, which means CPython's non-strict `binascii.a2b_base64` state
  machine. That decoder skips characters outside the alphabet, stops at a
  completed padding sequence, and fails only on a dangling partial group. It also
  fails on non-ASCII input.
- `Json` (`json.dfy`): the flat JSON objects of string members that the envelope
  uses (RFC 8259). The renderer is `json.dumps` with its default separators. The
  parser is `json.loads` for such objects: whitespace between tokens, every
  string escape, no trailing comma, and nothing after the closing brace. When a
  name repeats, the last member wins, as in a dict.
- `Envelope` (`envelope.dfy`): the `Message` record with `to_json` and
  `from_json`.
- `Primitives` (`primitives.dfy`): AES-EAX and RSA-OAEP with the mathematics
  kept abstract.
  - EAX is modelled by its structure: the plaintext XORed with a keystream
    (CTR), plus a MAC over the ciphertext. The keystream and the MAC are function
    values, so the EAX round trip is proved, not assumed.
  - OAEP is a pair of abstract functions. The one law the pipeline needs is
    `OaepLaws`: the matching private key unwraps what the public key wrapped.
    Pipeline results take it as a hypothesis. `ToyOaepLaws` shows that a
    function triple can meet it while a key pair matches.
- `Fcrypt` (`fcrypt.dfy`): the `encrypt` and `decrypt` pipelines. Key objects and
  file contents are parameters. Randomness is an `Entropy` of two byte streams:
  `os.urandom`, and pycryptodome's `get_random_bytes`, from which the EAX nonce
  and then the OAEP seed are drawn.

### Behaviour a reader might not expect

- An envelope with members under other names is accepted, and those members are
  ignored (`Envelope.FromJsonIgnoresUnknownMembers`).
- Text containing characters outside the base64 alphabet is not rejected. The
  decoder skips those characters (`Base64.DecodeSkipsInsignificant`). Only
  non-ASCII text and a group that is left incomplete are errors.

## Model

| member | source | states |
|---|---|---|
| Base64.Encode | task_4/fcrypt.py:23-26 | A field of n bytes becomes 4*ceil(n/3) characters. |
| Base64.EncodeShape | task_4/fcrypt.py:23-26 | All characters of an encoding are in `A-Z a-z 0-9 + /` except the padding. Padding is only in the last one or two positions. There is one '=' when n mod 3 is 2, two when it is 1, and none when it is 0. |
| Base64.Decode | task_4/fcrypt.py:34-37 | `b64decode` on text holding any non-ASCII character fails, whatever else the text holds. A successful decode is of ASCII text and yields at most three bytes for every four characters. The bound is proved over the decoder loop `Base64.Run`, which models `binascii.a2b_base64`. |
| Base64.DecodeEncode | task_4/fcrypt.py:23-37 | Decoding the base64 that `to_json` writes gives back exactly the original bytes. |
| Base64.EncodeInjective | task_4/fcrypt.py:23-26 | Two byte strings with the same base64 text are equal, so no two field values share an encoding. |
| Base64.DecodeIgnoresAfterPadding | task_4/fcrypt.py:34-37 | After a padded encoding, any ASCII text that follows is never read, and decoding still gives the encoded bytes. |
| Base64.DecodeSkipsInsignificant | task_4/fcrypt.py:34-37 | Characters that are neither in the alphabet nor '=' do not change the decode result. They are skipped, not rejected. |
| Base64.RunEncoded | task_4/fcrypt.py:34-37 | For `Base64.Run`, the `a2b_base64` loop: from the start of a quad, decoding an encoding appends exactly its bytes. After a padded final group the decoder stops; otherwise it continues with the text that follows. |
| Json.LoadsDumps | task_4/fcrypt.py:22-31 | Parsing (`Json.Loads`, modelling `json.loads`) text rendered by `Json.Dumps` (modelling `json.dumps`) gives back the same members, in the same order. |
| Json.Lookup | task_4/fcrypt.py:33-37 | `data[name]` has no value exactly when no member has that name (the KeyError case). Otherwise it is the value of the last member with that name. |
| Json.LookupIgnoresOrder | task_4/fcrypt.py:31-37 | When all names are distinct, two member lists holding the same members give the same lookup result for every name. |
| Envelope.ToJson | task_4/fcrypt.py:21-27 | The text parses as an object with exactly four members, `ciphertext`, `tag`, `nonce` and `sessionKey` in that order. Each member's value decodes to its field. Every character is printable ASCII, so the UTF-8 bytes written are the characters themselves. |
| Envelope.ReadFieldSpec | task_4/fcrypt.py:33-37 | `Envelope.ReadField` (`b64decode(data[name])`), read off the member list: when no member has the name, it is a missing-field error. Otherwise the last member of that name alone decides. Success comes exactly when its value decodes, the result is the decoded bytes, and a decoding error is reported against that field. |
| Envelope.FromJson | task_4/fcrypt.py:29-38 | `from_json`: text that `json.loads` rejects is a malformed-JSON error. A message comes back only when the text parses and the last member under each of the four names decodes to the matching field. |
| Envelope.FromJsonSpec | task_4/fcrypt.py:29-38 | `from_json` gives message m exactly when the text parses as an object whose last member under each of the four names decodes to the matching field of m. |
| Envelope.FromJsonToJson | task_4/fcrypt.py:21-38 | `from_json(to_json(m))` gives back m: all four fields, each in its own role. |
| Envelope.FromJsonAnyOrder | task_4/fcrypt.py:31-37 | The four members of a message, written in any order, read back as the same message. Fields are found by name, not by position. |
| Envelope.FromJsonMemberOrder | task_4/fcrypt.py:31-37 | Two documents with the same members under distinct names give the same `from_json` result, success or error. |
| Envelope.MissingFieldFails | task_4/fcrypt.py:33-37 | If a well-formed object lacks any of the four names, `from_json` fails. It never substitutes a default. |
| Envelope.FromJsonIgnoresUnknownMembers | task_4/fcrypt.py:31-37 | Members under other names, appended to an envelope, are ignored. |
| Envelope.FromJsonLastMemberWins | task_4/fcrypt.py:31-37 | If a second `tag` member follows the first, the message read back carries the second tag and keeps the other fields. |
| Primitives.EncryptAndDigest | task_4/fcrypt.py:45-48 | The ciphertext has the plaintext's length and deciphers back to it. The tag is the MAC over that ciphertext under the key and nonce. |
| Primitives.DecryptAndVerify | task_4/fcrypt.py:77-78 | Opening succeeds exactly when the key is a valid AES key, the nonce is non-empty and the tag verifies. An empty nonce is reported before a bad key length, as the EAX constructor checks the nonce before it builds the MAC under the key. A tag mismatch is a MAC-check failure. Released plaintext seals back to exactly the given ciphertext and tag. |
| Primitives.EaxRoundTrip | task_4/fcrypt.py:77-78 | Opening what was sealed under the same key and nonce gives back the plaintext. |
| Primitives.OaepEncrypt | task_4/fcrypt.py:52-53 | Wrapping fails, with "plaintext too long", exactly when the message exceeds k - 2*20 - 2 bytes, where k is the modulus length in bytes. Under the OAEP laws a successful wrapping is k bytes long, and every private key matching the public key unwraps it, through `OaepDecrypt`, to the message. |
| Primitives.OaepDecrypt | task_4/fcrypt.py:73-74 | Unwrapping succeeds only when the input is exactly k bytes and its padding checks out. The result is what the private key recovers. |
| Primitives.OaepRoundTrip | task_4/fcrypt.py:73-74 | Under the OAEP laws, the private key of a pair recovers whatever its public key wrapped. |
| Fcrypt.SessionKey | task_4/fcrypt.py:43 | The session key is 16 bytes, a valid AES-128 key. |
| Fcrypt.Seal | task_4/fcrypt.py:41-56 | Encryption fails only when the modulus is too short to wrap 16 bytes. Otherwise the fields hold, by role: a ciphertext of the plaintext's length and a tag, which open under the session key and the stored nonce to the plaintext; the fresh EAX nonce; and, under `sessionKey`, the OAEP wrapping of the session key. |
| Fcrypt.Encrypt | task_4/fcrypt.py:56-60 | The text written reads back, through `from_json`, as the sealed message. |
| Fcrypt.Decrypt | task_4/fcrypt.py:65-81 | Fail-closed. Plaintext comes back only when four things hold: the envelope parses, the `sessionKey` field unwraps with the private key to an AES key, the nonce is non-empty, and the stored tag verifies. The plaintext then seals to exactly the stored ciphertext and tag. |
| Fcrypt.DecryptEncrypt | task_4/fcrypt.py:41-81 | When the modulus can wrap 16 bytes, `encrypt` succeeds for any plaintext, the empty one included. Under the OAEP laws, decrypting its output with the matching private key gives back the plaintext. |
| Fcrypt.DecryptRejectsBadTag | task_4/fcrypt.py:77-81 | Suppose the envelope parses and the key unwraps to an AES key. Then a tag that does not verify gives an authentication error and no plaintext. |
| Fcrypt.TamperedEnvelopeRejected | task_4/fcrypt.py:69-81 | Take an honest envelope, keep its wrapped key, and change the ciphertext, tag or nonce so the tag no longer verifies. The matching private key then rejects it with an authentication error. |

## Left out

- The command-line interface (task_4/fcrypt.py:86-109) and the `print` messages: user interface only, no logic.
- File reads and writes and `RSA.import_key`: key objects, plaintext bytes and envelope text are parameters and results.
- The byte/text boundary. `json.loads` accepts bytes and detects UTF-8/16/32; the model starts from the decoded text. Encrypt's `str.encode` is the identity on the printable ASCII that `Envelope.ToJson` is proved to produce.
- The AES block cipher, the OMAC and the CTR counter construction of EAX: the keystream and the MAC are abstract function values. pycryptodome's tag check compares BLAKE2s digests of the two tags; the model compares the tags directly.
- RSA arithmetic and OAEP padding: abstract, with only the inverse law `OaepLaws`. Two security properties need assumptions about RSA and OAEP that the model does not make: a non-matching private key is rejected, and wrapping is randomised.
- MAC unforgeability: the model does not assume that changing the ciphertext, tag or nonce makes the tag check fail. `Fcrypt.TamperedEnvelopeRejected` takes the mismatch as a hypothesis, and what it proves is that a mismatch releases nothing.
- Randomness: the two streams in `Entropy` are arbitrary. Nothing says two encryptions draw different session keys or nonces.
- `AES.new` constructor checks beyond two: an AES key of the wrong length and an empty EAX nonce are both modelled as errors raised by `AES.new`. Other constructor errors are not modelled.
- JSON values other than strings: the JSON model covers objects whose member values are all strings. `json.loads` also accepts numbers, literals, arrays and nested objects as values, which the model rejects. A document that is not an object also fails in Python, but later, at `data[...]`.
- Unpaired surrogates: a `\u` escape that names an unpaired surrogate is rejected by the model. Python keeps such a character, but a Dafny `char` cannot hold one.
- Older Python versions: the decoder follows `binascii.a2b_base64` as of CPython 3.11. Earlier versions handle stray '=' characters slightly differently.
- Error detail: Python's exception messages and positions are reduced to the error kinds of each module.
