/** The paste API (src/app/api/paste/route.ts): unique id generation, and the
    POST and GET handlers as decision functions over the store.

    Randomness enters as the byte blocks `generateId(8)` would draw, one block
    per attempt; a finite list of blocks stands for the unbounded retry loop,
    and `DrawsExhausted` marks a request still looping when the list runs out.
    Request parsing, `JSON.stringify` / `JSON.parse` and the cipher primitives
    are parameters. */
module PasteService {
  import opened Common
  import opened Json
  import opened MemoryStore
  import Keys
  import Envelope

  const MissingEncrypted: string := "Missing encrypted content"
  const StoreFailed: string := "Failed to store paste"
  const MissingId: string := "Missing paste ID"
  const PasteNotFound: string := "Paste not found"
  const DecryptionFailed: string := "Decryption failed - invalid key"
  const RetrieveFailed: string := "Failed to retrieve paste"
  const PlainTextType: string := "text/plain; charset=utf-8"

  /** What a handler sends back. */
  datatype Response =
    | ErrorJson(status: nat, message: string)  // `{ error }` with a status
    | CreatedJson(id: string)                  // `{ success: true, id }`, status 200
    | EnvelopeJson(encrypted: Json)            // `paste.encrypted`, status 200
    | RawText(text: string, contentType: string, disposition: string)

  /** A POST either answers, leaving the store it answered with, or is still
      drawing ids when the supplied randomness runs out. */
  datatype PostOutcome = Answered(response: Response, store: Store) | DrawsExhausted

  /** `store.get(id)` is truthy: the id already holds a paste. */
  predicate Taken(store: Store, id: string)
  {
    match Get(store, id)
    case Some(v) => v != ""
    case None => false
  }

  /** Each attempt draws exactly the eight bytes `generateId(8)` asks for. */
  predicate WellFormedDraws(draws: seq<seq<byte>>)
  {
    forall i :: 0 <= i < |draws| ==> |draws[i]| == Keys.IdLength
  }

  /** `generateUniqueId()`: draws ids until `store.get` finds one empty.
      Probing only reads the store. */
  function GenerateUniqueId(store: Store, draws: seq<seq<byte>>): (r: Option<string>)
    requires WellFormedDraws(draws)
    ensures r.Some? ==> exists k :: 0 <= k < |draws| && r.value == Keys.GenerateId(draws[k])
                          && forall j :: 0 <= j < k ==> Taken(store, Keys.GenerateId(draws[j]))
    ensures r.Some? ==> !Taken(store, r.value)
    ensures r.Some? ==> |r.value| == Keys.IdLength
                        && forall i :: 0 <= i < |r.value| ==> Keys.IsAlphanumeric(r.value[i])
    ensures r.None? ==> forall j :: 0 <= j < |draws| ==> Taken(store, Keys.GenerateId(draws[j]))
    decreases |draws|
  {
    if |draws| == 0 then None
    else if !Taken(store, Keys.GenerateId(draws[0])) then Some(Keys.GenerateId(draws[0]))
    else
      assert forall j :: 1 <= j < |draws| ==> draws[1..][j - 1] == draws[j];
      GenerateUniqueId(store, draws[1..])
  }

  /** The request carries a truthy `encrypted` property. */
  predicate HasEncrypted(body: Json)
  {
    Member(body, "encrypted").Some? && Truthy(Member(body, "encrypted").value)
  }

  /** The record stored for a paste: `JSON.stringify({ encrypted })`. */
  function Record(codec: Codec, encrypted: Json): string
  {
    codec.stringify(JObject(map["encrypted" := encrypted]))
  }

  /** `POST /api/paste`. `body` is `request.json()`, `None` when it throws. */
  function Post(store: Store, codec: Codec, body: Option<Json>, draws: seq<seq<byte>>): (r: PostOutcome)
    requires WellFormedDraws(draws)
    ensures body.None? || body == Some(JNull) ==> r == Answered(ErrorJson(500, StoreFailed), store)
    ensures body.Some? && body.value != JNull && !HasEncrypted(body.value) ==>
              r == Answered(ErrorJson(400, MissingEncrypted), store)
    ensures r.Answered? && !r.response.CreatedJson? ==> r.store == store
    ensures r.Answered? && r.response.CreatedJson? ==>
              && body.Some? && HasEncrypted(body.value)
              && GenerateUniqueId(store, draws) == Some(r.response.id)
              && !Taken(store, r.response.id)
              && r.store.Keys == store.Keys + {r.response.id}
              && r.store[r.response.id] == Record(codec, Member(body.value, "encrypted").value)
              && forall other :: other in store && other != r.response.id ==> r.store[other] == store[other]
    ensures r.DrawsExhausted? ==> GenerateUniqueId(store, draws).None?
  {
    match body
    case None => Answered(ErrorJson(500, StoreFailed), store)
    case Some(b) =>
      if b.JNull? then Answered(ErrorJson(500, StoreFailed), store)
      else if !HasEncrypted(b) then Answered(ErrorJson(400, MissingEncrypted), store)
      else
        match GenerateUniqueId(store, draws)
        case None => DrawsExhausted
        case Some(id) =>
          Answered(CreatedJson(id), Set(store, id, Record(codec, Member(b, "encrypted").value)))
  }

  /** A search parameter that is present and non-empty (truthy). */
  predicate Given(param: Option<string>)
  {
    param.Some? && param.value != ""
  }

  /** The envelope as the editor sends it: an object of three strings. */
  function EnvelopeToJson(e: Envelope.EncryptedPaste): Json
  {
    JObject(map["iv" := JString(e.iv), "ciphertext" := JString(e.ciphertext), "salt" := JString(e.salt)])
  }

  /** Reads `paste.encrypted` as an envelope when its three fields are strings. */
  function StoredEnvelope(encrypted: Option<Json>): (r: Option<Envelope.EncryptedPaste>)
    ensures r.Some? ==> encrypted.Some? && encrypted.value.JObject?
  {
    match encrypted
    case Some(JObject(f)) =>
      if && "iv" in f && f["iv"].JString?
         && "ciphertext" in f && f["ciphertext"].JString?
         && "salt" in f && f["salt"].JString?
      then Some(Envelope.EncryptedPaste(f["iv"].s, f["ciphertext"].s, f["salt"].s))
      else None
    case _ => None
  }

  /** The server reads back the envelope the editor sent. */
  lemma StoredEnvelopeOfJson(e: Envelope.EncryptedPaste)
    ensures StoredEnvelope(Some(EnvelopeToJson(e))) == Some(e)
  {
  }

  /** The server's `decryptContent(paste.encrypted, key)`; a missing or
      malformed envelope fails like a wrong key. */
  function DecryptStored(p: Envelope.Primitives, encrypted: Option<Json>, key: string): (r: Result<string, string>)
    ensures r.Err? ==> r.error == Envelope.DecryptFailed
    ensures StoredEnvelope(encrypted).None? ==> r.Err?
    ensures StoredEnvelope(encrypted).Some? ==> r == Envelope.DecryptContent(p, StoredEnvelope(encrypted).value, key)
  {
    match StoredEnvelope(encrypted)
    case None => Err(Envelope.DecryptFailed)
    case Some(e) => Envelope.DecryptContent(p, e, key)
  }

  /** The `Content-Disposition` of a raw download. */
  function Disposition(id: string): string
  {
    "inline; filename=\"" + id + ".txt\""
  }

  /** A character the Fetch `Headers` class accepts inside a header value: a
      byte-string code point other than NUL, LF and CR. */
  predicate IsHeaderValueChar(c: char)
  {
    c as int <= 0xFF && c != '\0' && c != '\n' && c != '\r'
  }

  /** The response headers accept `Disposition(id)`. Its fixed first and last
      characters are not whitespace, so value normalization strips nothing and
      the id's own characters decide. */
  predicate DispositionAccepted(id: string)
  {
    forall i :: 0 <= i < |id| ==> IsHeaderValueChar(id[i])
  }

  /** `GET /api/paste?id=&key=&raw=`. With both `raw` and `key` the envelope
      is read, and the download's headers are built, inside the inner `try`, so
      a stored `null`, a record without `encrypted`, or an id the headers
      reject fails like a wrong key. Otherwise `paste.encrypted` goes to
      `NextResponse.json`: reading it from `null` throws, and an `undefined`
      value makes `Response.json` throw, since `JSON.stringify` gives no text
      for it; both escape to the outer handler's 500. */
  function GetPaste(store: Store, codec: Codec, p: Envelope.Primitives,
                    id: Option<string>, key: Option<string>, raw: Option<string>): (r: Response)
    ensures !Given(id) ==> r == ErrorJson(400, MissingId)
    ensures Given(id) && !Taken(store, id.value) ==> r == ErrorJson(404, PasteNotFound)
    ensures r == ErrorJson(500, RetrieveFailed) <==>
              && Given(id) && Taken(store, id.value)
              && (|| codec.parse(store[id.value]).None?
                  || (!(Given(raw) && Given(key))
                      && Member(codec.parse(store[id.value]).value, "encrypted").None?))
    ensures r == ErrorJson(400, DecryptionFailed) <==>
              && Given(id) && Taken(store, id.value) && Given(key) && Given(raw)
              && codec.parse(store[id.value]).Some?
              && (|| codec.parse(store[id.value]) == Some(JNull)
                  || DecryptStored(p, Member(codec.parse(store[id.value]).value, "encrypted"), key.value).Err?
                  || !DispositionAccepted(id.value))
    ensures r.RawText? ==>
              && Given(id) && Taken(store, id.value) && Given(key) && Given(raw)
              && codec.parse(store[id.value]).Some? && codec.parse(store[id.value]) != Some(JNull)
              && DecryptStored(p, Member(codec.parse(store[id.value]).value, "encrypted"), key.value) == Ok(r.text)
              && DispositionAccepted(id.value)
              && r.contentType == PlainTextType && r.disposition == Disposition(id.value)
    ensures r.EnvelopeJson? <==>
              && Given(id) && Taken(store, id.value) && !(Given(key) && Given(raw))
              && codec.parse(store[id.value]).Some?
              && Member(codec.parse(store[id.value]).value, "encrypted").Some?
    ensures r.EnvelopeJson? ==> Member(codec.parse(store[id.value]).value, "encrypted") == Some(r.encrypted)
    ensures !r.CreatedJson?
  {
    if !Given(id) then ErrorJson(400, MissingId)
    else
      match Get(store, id.value)
      case None => ErrorJson(404, PasteNotFound)
      case Some(data) =>
        match codec.parse(data)
        case None => ErrorJson(500, RetrieveFailed)
        case Some(paste) =>
          if Given(raw) && Given(key) then
            if paste.JNull? then ErrorJson(400, DecryptionFailed)
            else
              match DecryptStored(p, Member(paste, "encrypted"), key.value)
              case Ok(text) =>
                if DispositionAccepted(id.value) then RawText(text, PlainTextType, Disposition(id.value))
                else ErrorJson(400, DecryptionFailed)
              case Err(_) => ErrorJson(400, DecryptionFailed)
          else if paste.JNull? then ErrorJson(500, RetrieveFailed)
          else
            match Member(paste, "encrypted")
            case None => ErrorJson(500, RetrieveFailed)
            case Some(encrypted) => EnvelopeJson(encrypted)
  }

  /** With both `raw` and `key`, a stored record that parses is either
      downloaded as text or refused with the one decryption error: every cause
      of failure looks the same to the caller. */
  lemma RawRequestOutcomes(store: Store, codec: Codec, p: Envelope.Primitives,
                           id: string, key: string, raw: string)
    requires id != "" && key != "" && raw != ""
    requires Taken(store, id) && codec.parse(store[id]).Some?
    ensures var r := GetPaste(store, codec, p, Some(id), Some(key), Some(raw));
            r.RawText? || r == ErrorJson(400, DecryptionFailed)
  {
  }

  /** Without both `raw` and `key` nothing is decrypted: the answer does not
      depend on the cipher at all. */
  lemma EnvelopeReadNeedsNoCipher(store: Store, codec: Codec, p: Envelope.Primitives, q: Envelope.Primitives,
                                  id: Option<string>, key: Option<string>, raw: Option<string>)
    requires !(Given(raw) && Given(key))
    ensures GetPaste(store, codec, p, id, key, raw) == GetPaste(store, codec, q, id, key, raw)
  {
  }

  /** A successful POST leaves its id holding the record of its envelope. */
  lemma PostStoresRecord(store: Store, codec: Codec, body: Json, draws: seq<seq<byte>>)
    requires Lawful(codec) && WellFormedDraws(draws)
    requires HasEncrypted(body) && GenerateUniqueId(store, draws).Some?
    ensures var out := Post(store, codec, Some(body), draws);
            && out.Answered? && out.response.CreatedJson?
            && out.response.id == GenerateUniqueId(store, draws).value
            && Get(out.store, out.response.id) == Some(Record(codec, Member(body, "encrypted").value))
  {
    assert body != JNull;
    assert Record(codec, Member(body, "encrypted").value) != "";
  }

  /** GET on an id holding the record of `encrypted`: the envelope, or with
      both `raw` and `key` its decryption. */
  lemma GetRecord(store: Store, codec: Codec, p: Envelope.Primitives, id: string,
                  encrypted: Json, key: Option<string>, raw: Option<string>)
    requires Lawful(codec) && id != ""
    requires Get(store, id) == Some(Record(codec, encrypted))
    ensures GetPaste(store, codec, p, Some(id), key, raw)
              == if !(Given(raw) && Given(key)) then EnvelopeJson(encrypted)
                 else match DecryptStored(p, Some(encrypted), key.value)
                      case Ok(text) =>
                        if DispositionAccepted(id) then RawText(text, PlainTextType, Disposition(id))
                        else ErrorJson(400, DecryptionFailed)
                      case Err(_) => ErrorJson(400, DecryptionFailed)
  {
    var record := JObject(map["encrypted" := encrypted]);
    assert codec.parse(codec.stringify(record)) == Some(record);
    assert Member(record, "encrypted") == Some(encrypted);
  }

  /** Viewing a freshly created paste returns the envelope it was created with. */
  lemma ViewAfterPost(store: Store, codec: Codec, p: Envelope.Primitives, body: Json,
                      draws: seq<seq<byte>>, key: Option<string>)
    requires Lawful(codec) && WellFormedDraws(draws)
    requires HasEncrypted(body) && GenerateUniqueId(store, draws).Some?
    ensures var out := Post(store, codec, Some(body), draws);
            && out.Answered? && out.response.CreatedJson?
            && GetPaste(out.store, codec, p, Some(out.response.id), key, None)
                 == EnvelopeJson(Member(body, "encrypted").value)
  {
    PostStoresRecord(store, codec, body, draws);
    var out := Post(store, codec, Some(body), draws);
    GetRecord(out.store, codec, p, out.response.id, Member(body, "encrypted").value, key, None);
  }

  /** Alphanumeric ids, as `generateId` makes them, are accepted in a header. */
  lemma AlphanumericAccepted(id: string)
    requires forall i :: 0 <= i < |id| ==> Keys.IsAlphanumeric(id[i])
    ensures DispositionAccepted(id)
  {
  }

  /** Posting an envelope that `key` opens to `text`, then fetching it raw with
      that key, downloads `text`. */
  lemma RawAfterPostOf(store: Store, codec: Codec, p: Envelope.Primitives, encrypted: Json,
                       text: string, key: string, draws: seq<seq<byte>>, raw: string)
    requires Lawful(codec) && WellFormedDraws(draws)
    requires key != "" && raw != "" && encrypted.JObject?
    requires DecryptStored(p, Some(encrypted), key) == Ok(text)
    requires GenerateUniqueId(store, draws).Some?
    ensures var out := Post(store, codec, Some(JObject(map["encrypted" := encrypted])), draws);
            && out.Answered? && out.response.CreatedJson?
            && GetPaste(out.store, codec, p, Some(out.response.id), Some(key), Some(raw))
                 == RawText(text, PlainTextType, Disposition(out.response.id))
  {
    var body := JObject(map["encrypted" := encrypted]);
    assert Member(body, "encrypted") == Some(encrypted);
    PostStoresRecord(store, codec, body, draws);
    var out := Post(store, codec, Some(body), draws);
    var id := out.response.id;
    AlphanumericAccepted(id);
    GetRecord(out.store, codec, p, id, encrypted, Some(key), Some(raw));
  }

  /** End to end: text encrypted under a key, posted, then fetched raw with the
      same key comes back as a plain-text download, less one leading byte
      order mark, and exactly when it has none. */
  lemma RawAfterPost(store: Store, codec: Codec, p: Envelope.Primitives,
                     text: string, key: string, salt: seq<byte>, iv: seq<byte>,
                     draws: seq<seq<byte>>, raw: string)
    requires Lawful(codec) && Envelope.Sound(p) && WellFormedDraws(draws)
    requires |salt| == Envelope.SaltLength && |iv| == Envelope.IvLength
    requires key != "" && raw != ""
    requires GenerateUniqueId(store, draws).Some?
    ensures var body := JObject(map["encrypted" := EnvelopeToJson(Envelope.EncryptContent(p, text, key, salt, iv))]);
            var out := Post(store, codec, Some(body), draws);
            && out.Answered? && out.response.CreatedJson?
            && GetPaste(out.store, codec, p, Some(out.response.id), Some(key), Some(raw))
                 == RawText(Envelope.StripLeadingBom(text), PlainTextType, Disposition(out.response.id))
            && (|text| == 0 || text[0] != Envelope.Bom ==>
                  GetPaste(out.store, codec, p, Some(out.response.id), Some(key), Some(raw))
                    == RawText(text, PlainTextType, Disposition(out.response.id)))
  {
    var e := Envelope.EncryptContent(p, text, key, salt, iv);
    StoredEnvelopeOfJson(e);
    Envelope.DecryptEncrypt(p, text, key, salt, iv);
    RawAfterPostOf(store, codec, p, EnvelopeToJson(e), Envelope.StripLeadingBom(text), key, draws, raw);
  }

  /** One POST of a sequence: its body and the id draws it would make. */
  datatype Request = Request(body: Option<Json>, draws: seq<seq<byte>>)

  /** The ids a sequence of POSTs handed out, in order, and the store it left. */
  datatype Posted = Posted(ids: seq<string>, final: Store)

  /** Puts the id a response created, if any, in front of the later ones. */
  function Prepend(response: Response, later: Posted): Posted
  {
    if response.CreatedJson? then Posted([response.id] + later.ids, later.final) else later
  }

  /** Sequential POSTs, each seeing the store the previous one left. */
  function PostAll(store: Store, codec: Codec, requests: seq<Request>): Posted
    requires forall i :: 0 <= i < |requests| ==> WellFormedDraws(requests[i].draws)
    decreases |requests|
  {
    if |requests| == 0 then Posted([], store)
    else
      match Post(store, codec, requests[0].body, requests[0].draws)
      case DrawsExhausted => PostAll(store, codec, requests[1..])
      case Answered(response, next) => Prepend(response, PostAll(next, codec, requests[1..]))
  }

  /** Pairwise distinct ids, none taken in `store` and all taken in the final
      store, which keeps every id `store` had taken. */
  ghost predicate FreshAndDistinct(store: Store, p: Posted)
  {
    && (forall i, j :: 0 <= i < j < |p.ids| ==> p.ids[i] != p.ids[j])
    && (forall i :: 0 <= i < |p.ids| ==> !Taken(store, p.ids[i]) && Taken(p.final, p.ids[i]))
    && (forall x :: Taken(store, x) ==> Taken(p.final, x))
  }

  /** Writing a non-empty record never frees an id. */
  lemma SetKeepsTaken(store: Store, id: string, value: string, other: string)
    requires value != "" && Taken(store, other)
    ensures Taken(Set(store, id, value), other)
  {
  }

  /** A POST that did not create leaves the store as it was. */
  lemma StepUnchanged(store: Store, later: Posted, response: Response)
    requires !response.CreatedJson? && FreshAndDistinct(store, later)
    ensures FreshAndDistinct(store, Prepend(response, later))
  {
  }

  /** A POST that created `id` in `next`: the invariant extends to the front. */
  lemma StepCreated(store: Store, next: Store, id: string, later: Posted)
    requires !Taken(store, id) && Taken(next, id)
    requires forall x :: Taken(store, x) ==> Taken(next, x)
    requires FreshAndDistinct(next, later)
    ensures FreshAndDistinct(store, Prepend(CreatedJson(id), later))
  {
    var all := [id] + later.ids;
    forall i | 0 <= i < |all| ensures !Taken(store, all[i]) && Taken(later.final, all[i]) {
      if i > 0 {
        assert all[i] == later.ids[i - 1];
      }
    }
    forall i, j | 0 <= i < j < |all| ensures all[i] != all[j] {
      assert all[j] == later.ids[j - 1];
      if i > 0 {
        assert all[i] == later.ids[i - 1];
      }
    }
  }

  /** A created paste takes its id and keeps every id already taken. */
  lemma CreatedTakes(store: Store, codec: Codec, body: Option<Json>, draws: seq<seq<byte>>)
    requires Lawful(codec) && WellFormedDraws(draws)
    requires Post(store, codec, body, draws).Answered?
    ensures var out := Post(store, codec, body, draws);
            && (out.response.CreatedJson? ==> !Taken(store, out.response.id) && Taken(out.store, out.response.id))
            && (forall x :: Taken(store, x) ==> Taken(out.store, x))
  {
    var out := Post(store, codec, body, draws);
    if out.response.CreatedJson? {
      var id := out.response.id;
      var record := Record(codec, Member(body.value, "encrypted").value);
      assert record != "";
      assert out.store == Set(store, id, record);
      forall x | Taken(store, x) ensures Taken(out.store, x) {
        SetKeepsTaken(store, id, record, x);
      }
    }
  }

  /** With a store that never evicts, sequential POSTs hand out pairwise
      distinct ids, none taken before and all taken afterwards. */
  lemma {:induction false} PostedIdsDistinct(store: Store, codec: Codec, requests: seq<Request>)
    requires Lawful(codec)
    requires forall i :: 0 <= i < |requests| ==> WellFormedDraws(requests[i].draws)
    ensures FreshAndDistinct(store, PostAll(store, codec, requests))
    decreases |requests|
  {
    if |requests| > 0 {
      var out := Post(store, codec, requests[0].body, requests[0].draws);
      if out.DrawsExhausted? {
        PostedIdsDistinct(store, codec, requests[1..]);
      } else {
        PostedIdsDistinct(out.store, codec, requests[1..]);
        CreatedTakes(store, codec, requests[0].body, requests[0].draws);
        var later := PostAll(out.store, codec, requests[1..]);
        if out.response.CreatedJson? {
          StepCreated(store, out.store, out.response.id, later);
        } else {
          StepUnchanged(store, later, out.response);
        }
      }
    }
  }
}
