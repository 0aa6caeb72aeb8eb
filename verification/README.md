# clip: a Dafny model of the paste core

clip is an end-to-end encrypted pastebin. The browser encrypts a paste under a
random key. The server stores only the encrypted envelope under a short random
id. The share link is `origin/id#key`; browsers never send the fragment to the
server, so the key never reaches it. This project models the deterministic
logic around the cipher and the store, and proves what that logic promises:

- **Keys and ids** (`Keys`): `generateKey` maps random bytes into a 64-symbol
  URL-safe alphabet. `generateId` maps them into a 62-symbol alphanumeric
  alphabet. Both share one drawing function.
- **Base64** (`Base64`): `bufferToBase64` is `btoa` over a byte string, i.e. the
  padded encoding of section 4 of RFC 4648. `base64ToBuffer` is `atob`, i.e. the
  WHATWG "forgiving-base64 decode":
  - ASCII whitespace is dropped;
  - up to two trailing `=` are removed when the length is a multiple of four;
  - a length of 1 modulo 4 or a foreign character throws;
  - leftover bits are discarded.
- **Envelope** (`Envelope`): `encryptContent` / `decryptContent`, with PBKDF2,
  AES-GCM and UTF-8 passed in as a `Primitives` value. `Sound` states the two
  laws relied on. AES-GCM decryption undoes encryption under the same key and
  iv. UTF-8 decoding with `new TextDecoder()` undoes UTF-8 encoding, except
  that it drops one leading byte order mark (U+FEFF): its `ignoreBOM` option
  is false by default.
- **Locators** (`Locator`):
  - `createPasteUrl`.
  - `parsePasteUrl`, with its two paths. The direct path splits `#id#key`. The
    legacy path decodes base64 of `id:key` and applies the regular expression
    `^(.+):(.+)$`, which is greedy and fails on any line terminator.
  - `String.prototype.split` is modelled for a one-character separator.
- **Memory store** (`MemoryStore`): a map read through `|| null`, so a stored
  empty string reads back as absent.
- **Paste API** (`PasteService`):
  - `generateUniqueId` probes the store until a drawn id is free.
  - `POST` and `GET /api/paste` are decision functions from a store to a
    response and a new store.
  - JSON is a datatype with an abstract `Codec` (`JSON.stringify` /
    `JSON.parse`). `Lawful` says parsing undoes serializing.
- **Docs negotiation** (`Docs`): `isCliRequest` and the markdown/HTML choice of
  `GET /docs`.

Random bytes, foreign calls and JSON serialization are parameters. Every
operation is a pure function.

Some behaviour of the code is easy to miss:

- `atob` throws on text that is not base64, and `parsePasteUrl` does not catch
  it, so on the legacy path `ParsePasteUrl` returns `Err` for such text.
- A share URL carries `#key` as its fragment. That is neither `#id#key` nor
  base64 of `id:key`: the viewer reads the key with `hash.slice(1)`, not through
  `parsePasteUrl`. `Locator.SharedFragmentThrows` shows that `parsePasteUrl` on
  such a fragment throws whenever the key contains `-` or `_`.
- On `GET` with both `raw` and `key`, the envelope is read inside the inner
  `try`. A stored JSON `null`, or a record without `encrypted`, therefore gives
  the 400 decryption error there. Without `raw` and `key`, reading
  `paste.encrypted` from `null` throws, and an `undefined` envelope makes
  `NextResponse.json` throw: the Fetch standard's `Response.json` rejects a
  value `JSON.stringify` turns into no text. Both escape to the outer handler
  and give 500.
- The raw download's `Content-Disposition` holds the id and is built inside
  the same inner `try`. The Fetch `Headers` class rejects a code point above
  U+00FF, NUL, LF or CR in a header value. An id holding one of these gets the
  400 decryption error even though decryption succeeded. Ids made by `POST`
  are alphanumeric and never do.
- Both copies of `decryptContent` decode with `new TextDecoder()`, so a
  plaintext starting with U+FEFF comes back without it.
  `Envelope.LeadingBomDropped` shows this. Every other plaintext comes back
  exactly.

## Model

| member | source | states |
|---|---|---|
| Keys.KeyAlphabetShape | src/lib/crypto.ts:16-17 | the key alphabet has exactly 64 symbols, each a letter, digit, `_` or `-` |
| Keys.GenerateKey | src/lib/crypto.ts:15-25 | one character per random byte; character `i` is the alphabet symbol at byte `i` mod 64, so every character is URL-safe and none is `#` or `:` |
| Keys.KeyDrawUnbiased | src/lib/crypto.ts:16-22 | every key symbol is picked by exactly four of the 256 byte values, so uniform bytes give uniform symbols |
| Keys.IdAlphabetShape | src/app/api/paste/route.ts:7-8 | the id alphabet has exactly 62 symbols, all alphanumeric |
| Keys.GenerateId | src/app/api/paste/route.ts:6-16 | one character per random byte; character `i` is the id symbol at byte `i` mod 62, and every character is alphanumeric |
| Keys.IdDrawBias | src/app/api/paste/route.ts:7-13 | because 62 does not divide 256, symbols `A` to `H` are picked by five byte values and the other 54 by four |
| Keys.Draw | src/lib/crypto.ts:18-24 | the drawn string has the length of the random input, and position `i` holds the symbol the `i`-th byte selects |
| Base64.AlphabetTable | src/lib/crypto.ts:31-38 | the 64-symbol table `Symbol` reads off the value ranges is exactly the alphabet of RFC 4648 |
| Base64.Encode | src/lib/crypto.ts:31-38 | the encoding uses only alphabet symbols and `=` |
| Base64.EncodeLength | src/lib/crypto.ts:31-38 | the encoding has four characters per started group of three bytes |
| Base64.EncodeGroupsLength | src/lib/crypto.ts:31-38 | before padding, a full group takes four symbols and a final group of `n` bytes takes `n + 1` |
| Base64.UnpadEncode | src/lib/crypto.ts:37-41 | the decoder's padding removal takes back exactly the `=` the encoder added |
| Base64.Decode | src/lib/crypto.ts:40-47 | decoding succeeds exactly when the text, without whitespace and padding, is alphabet-only and not one symbol past a whole group |
| Base64.DecodeRejectsForeign | src/lib/crypto.ts:40-41 | text without whitespace or `=` that holds a non-alphabet character throws |
| Base64.DecodeEncodeTriple | src/lib/crypto.ts:31-47 | the four symbols of three bytes decode to those three bytes |
| Base64.DecodeEncodeGroups | src/lib/crypto.ts:31-47 | the unpadded symbols of any byte string decode back to it |
| Base64.DecodeEncode | src/lib/crypto.ts:31-47 | `base64ToBuffer(bufferToBase64(b))` is `b` for every byte string |
| Envelope.KdfFixed | src/lib/crypto.ts:49-73 | `DeriveKey` stretches the password's UTF-8 bytes with the salt under PBKDF2 with SHA-256, 100000 iterations and a 256-bit AES-GCM result |
| Envelope.EncryptContent | src/lib/crypto.ts:75-93 | the salt and iv fields decode back to the drawn salt and iv; the ciphertext field decodes to the plaintext's UTF-8 sealed under the key derived from password and salt; all three use base64 characters only |
| Envelope.EncryptedFieldLengths | src/lib/crypto.ts:79-92 | the 16-byte salt is stored as 24 characters and the 12-byte iv as 16 |
| Envelope.DecryptContent | src/lib/crypto.ts:95-114 | any failure is the one fixed error; success happens exactly when all three fields decode and authenticated decryption accepts, and then the result is the UTF-8 decoding of exactly the bytes decryption returned |
| Envelope.DecryptEncrypt | src/lib/crypto.ts:75-114 | decrypting with the encrypting key gives the plaintext back less one leading U+FEFF, and exactly when it does not start with one |
| Envelope.LeadingBomDropped | src/lib/crypto.ts:110 | a plaintext starting with U+FEFF decrypts to the rest of it |
| Locator.CreatePasteUrl | src/lib/crypto.ts:116-119 | the URL is empty outside a browser, and otherwise exactly origin, `/`, id, `#`, key |
| Locator.UrlFragmentIsKey | src/lib/crypto.ts:116-119 | a share URL splits at `#` into the path and the key |
| Locator.Split | src/lib/crypto.ts:129 | the parts are separator-free and join back to the input |
| Locator.SplitJoin | src/lib/crypto.ts:129 | splitting undoes joining separator-free parts |
| Locator.MatchIdKey | src/lib/crypto.ts:135-137 | a match splits the text at a colon into two non-empty parts, and the second part has no colon before its last character; no match means a line terminator or no colon strictly inside |
| Locator.MatchJoined | src/lib/crypto.ts:135-137 | `id:key` matches back into `id` and `key` when neither is empty or holds a line terminator and the key holds no colon |
| Locator.ParsePasteUrl | src/lib/crypto.ts:121-141 | empty or `#`-less input gives the null pair; a remainder that splits at `#` into two parts gives those parts; otherwise it throws exactly when the remainder is not base64, and when it decodes, the result is the greedy `^(.+):(.+)$` split of the decoded text, or the null pair when that does not match |
| Locator.ParseDirect | src/lib/crypto.ts:129-132 | `#id#key` parses to `id` and `key` whenever neither holds `#`, empty parts included |
| Locator.ParseLegacy | src/lib/crypto.ts:134-138 | base64 of `id:key` parses to `id` and `key` under the pattern's conditions |
| Locator.FragmentThrows | src/lib/crypto.ts:129-134 | `#` plus key symbols including `-` or `_` falls through to `atob`, which throws |
| Locator.SharedFragmentThrows | src/lib/crypto.ts:116-141 | the fragment of a created URL holding `-` or `_` makes `parsePasteUrl` throw |
| MemoryStore.Get | src/lib/stores/memory.ts:6-8 | a stored non-empty text is returned; an unset id or a stored empty string reads as absent |
| MemoryStore.Set | src/lib/stores/memory.ts:10-12 | the id is added to the keys; reading it gives the value, or absent for the empty string; every other id reads as before |
| MemoryStore.GetEmpty | src/lib/stores/memory.ts:4-8 | a new store holds nothing |
| MemoryStore.LastWriteWins | src/lib/stores/memory.ts:10-12 | a second write to the same id replaces the first |
| MemoryStore.SetsCommute | src/lib/stores/memory.ts:10-12 | writes to different ids commute |
| PasteService.GenerateUniqueId | src/app/api/paste/route.ts:18-26 | the result is the first drawn id the store does not hold, with every earlier draw taken; it is 8 alphanumeric characters; no result means every draw was taken |
| PasteService.Post | src/app/api/paste/route.ts:90-113 | an unreadable or `null` body gives 500 and a body without a truthy `encrypted` gives 400, both with the store unchanged; a creation uses the unique id, which was free, adds only that key, stores the serialized `{encrypted}` record there and leaves all other entries alone |
| PasteService.CreatedTakes | src/app/api/paste/route.ts:102-103 | a created id was free before and is taken after, and nothing taken is freed |
| PasteService.PostedIdsDistinct | src/app/api/paste/route.ts:18-26 | sequential POSTs against a store that never evicts hand out pairwise distinct ids, each free before and taken after |
| PasteService.DecryptStored | src/app/api/paste/route.ts:67-88 | the server's decryption fails only with the fixed error, fails on a missing or malformed envelope, and otherwise agrees with the client's |
| PasteService.StoredEnvelopeOfJson | src/app/api/paste/route.ts:136-139 | the server reads back exactly the envelope the editor sent |
| PasteService.GetPaste | src/app/api/paste/route.ts:115-162 | no id gives 400 and a free id gives 404; 500 exactly when the record does not parse, or has no `encrypted` member (as `null` has none) outside the raw path; on the raw path, the 400 decryption error exactly when the record is `null`, its envelope does not decrypt, or the id holds a character header values reject, and otherwise the decrypted text as `text/plain`; outside it, the stored envelope exactly when there is one |
| PasteService.RawRequestOutcomes | src/app/api/paste/route.ts:134-151 | with `raw` and `key`, a parseable record gives the text or the single 400 decryption error |
| PasteService.EnvelopeReadNeedsNoCipher | src/app/api/paste/route.ts:154 | without both `raw` and `key` the answer does not depend on the cipher |
| PasteService.PostStoresRecord | src/app/api/paste/route.ts:102-105 | a successful POST answers with the unique id, which now reads back as the record of its envelope |
| PasteService.GetRecord | src/app/api/paste/route.ts:126-154 | GET on an id holding a POST-shaped record returns the envelope; on the raw path it returns the decryption, or the 400 error when decryption fails or the headers reject the id |
| PasteService.ViewAfterPost | src/app/api/paste/route.ts:102-154 | viewing a created paste returns the envelope it was created with |
| PasteService.AlphanumericAccepted | src/app/api/paste/route.ts:140-145 | the `Content-Disposition` of an alphanumeric id, as `POST` makes them, is accepted by the response headers |
| PasteService.RawAfterPostOf | src/app/api/paste/route.ts:102-145 | a posted envelope the key opens downloads as its text |
| PasteService.RawAfterPost | src/app/api/paste/route.ts:102-145 | text encrypted, posted and downloaded raw with the same key comes back less one leading U+FEFF, and exactly when it does not start with one |
| Docs.Includes | src/app/docs/route.ts:178 | `includes` is true exactly when the needle occurs at some position |
| Docs.AnyIncluded | src/app/docs/route.ts:178 | `some` is true exactly when some agent of the list occurs |
| Docs.IsCliRequest | src/app/docs/route.ts:168-179 | true exactly when the lower-cased User-Agent, empty when missing, contains one of the six agents |
| Docs.MissingUserAgentIsNotCli | src/app/docs/route.ts:169 | a request without User-Agent is never a command line request |
| Docs.CliAgentsReduce | src/app/docs/route.ts:170-178 | `curl`, `wget`, `http` and `python-requests` alone decide, since `http` covers `httpie` and `go-http-client` |
| Docs.DocsGet | src/app/docs/route.ts:181-193 | HTML exactly when Accept lacks `text/plain` and the request is not from a command line client; each document has its fixed content type |
| Docs.PlainAcceptWins | src/app/docs/route.ts:183-188 | an Accept containing `text/plain` gets markdown whatever the User-Agent |
| Docs.CurlGetsMarkdown | src/app/docs/route.ts:168-188 | a User-Agent holding `curl` in any letter case gets markdown |

## Left out

- PBKDF2, AES-GCM, `TextEncoder` and `TextDecoder` are foreign calls and appear only as the functions of a `Primitives` value. The model assumes just `Sound`. That a wrong key is rejected, and that encryption is randomized, are cryptographic properties that cannot be stated over abstract functions.
- `crypto.getRandomValues` is replaced by its output: byte strings for keys and ids, and salt and iv as inputs of `EncryptContent`. Its error path is not modelled: it throws `QuotaExceededError` for more than 65536 bytes.
- Keys.GenerateKey: accepts byte strings of any length, while `generateKey(n)` throws for `n > 65536` through `crypto.getRandomValues`. The editor asks for 22.
- Keys.GenerateId: accepts byte strings of any length, while `generateId(n)` throws for `n > 65536` through `crypto.getRandomValues`. `generateUniqueId` asks for 8.
- PasteService.GenerateUniqueId: the source loop is unbounded. The model takes a finite list of draws, and `DrawsExhausted` stands for a POST still looping when the list runs out.
- `JSON.stringify` and `JSON.parse` are the abstract `Codec`. JSON numbers are integers. Behaviour that depends on the serialized text itself is not modelled.
- PasteService.DecryptStored: an envelope field that is not a string counts as a decryption failure. The source coerces such a field with `String()` before `atob`, and AES-GCM then decides. A number whose digits happen to be valid base64 is not followed further.
- Docs.IsCliRequest: `toLowerCase` is modelled on ASCII letters only. Unicode lower-casing also maps `İ` (U+0130) to text containing `i` and the Kelvin sign to `k`. The agents that decide (`curl`, `wget`, `http`, `python-requests`) contain neither letter, so the decision is unchanged.
- The Redis store and the store selection by environment are configuration around a client library.
- The check-then-set race between `generateUniqueId` and `store.set` under concurrent requests does not exist in a sequential model. `PasteService.PostedIdsDistinct` assumes requests run one after another.
- The 500 catch-alls for thrown store or network errors, and console logging, are not modelled. Only the 500 answers that follow from the request and the stored record are: an unreadable body, a `null` body, a record that does not parse, a record without `encrypted` outside the raw path.
- The HTML template, the markdown rendering with `marked`, and reading the docs file are presentation and I/O. A response names which document it carries rather than its text.
- Strings are sequences of Unicode code points, not of UTF-16 code units, so a JavaScript string holding a lone surrogate has no counterpart in the model.
- Envelope.DecryptEncrypt: covers only plaintexts the model can represent. A JavaScript plaintext with a lone surrogate is outside the model. `TextEncoder` turns that surrogate into U+FFFD, so in the source such a plaintext does not come back unchanged. The same holds for PasteService.RawAfterPost.
- The React pages and components, and the share-URL reading done by the viewer, are user interface.
