/** The client side of the vault (src/SecureFiles.tsx): the upload form's submit handler, the
    decrypt view's handler and the view switch of `SecureFiles`.

    Every collaborator the handlers await is abstract. The AES cipher of CryptoJS is a pair of
    functions (encryption draws a random salt, given here as a parameter; decryption yields
    None where CryptoJS throws). Reading the picked file, the URL the blob store issues, and the
    replies to the upload POST and to the download fetch are the "world" of one run, chosen
    freely by the caller of a handler. The directory is the `FileTable` of VaultDirectory,
    called with the identity the backend sees. Each handler records, in a ghost trace, the
    collaborator calls it makes, in order. */
module Transfer {

  import opened Optional
  import opened Base64
  import opened VaultDirectory

  /** The file picked in the form's file input; its `size` is the length of its content. */
  datatype LocalFile = LocalFile(name: string, mimeType: string, bytes: seq<Byte>)

  type Salt = seq<Byte>

  /** `CryptoJS.AES.encrypt(text, passphrase).toString()` and
      `CryptoJS.AES.decrypt(text, passphrase).toString(CryptoJS.enc.Utf8)`. */
  datatype Cipher = Cipher(
    encrypt: (string, string, Salt) -> string,
    decrypt: (string, string) -> Option<string>)

  /** The one assumption made about the cipher, and only where a lemma asks for it: decrypting
      with the passphrase used to encrypt gives back the text. */
  ghost predicate DecryptInvertsEncrypt(c: Cipher)
  {
    forall text, passphrase, salt :: c.decrypt(c.encrypt(text, passphrase, salt), passphrase) == Some(text)
  }

  /** A call the client makes to a collaborator. */
  datatype Call =
    | ReadFile                                   // file.arrayBuffer()
    | EncryptText(plaintext: string, passphrase: string)
    | RequestUploadUrl                           // the generateUploadUrl mutation
    | PostBlob(url: Url, body: string)           // fetch(uploadUrl, { method: "POST", ... })
    | SaveMetadata(storageId: StorageId, filename: string, size: real, mimeType: string)
    | FetchBlob(url: Url)                        // fetch(fileUrl)
    | DecryptText(ciphertext: string, passphrase: string)
    | DownloadFile(bytes: seq<Byte>, filename: string, mimeType: string)

  // ===== Upload: UploadForm.handleSubmit (src/SecureFiles.tsx:69-124) =====

  /** How the upload POST completes: it throws (network), or answers with its `ok` flag and the
      `storageId` read from its JSON body (None when that body has none). */
  datatype UploadReply = PostThrows | PostResponse(ok: bool, storageId: Option<StorageId>)

  /** What the world does during one submission. */
  datatype UploadWorld = UploadWorld(
    readable: bool,      // file.arrayBuffer() resolves
    salt: Salt,          // the salt CryptoJS draws
    slot: Url,           // the URL ctx.storage.generateUploadUrl() issues
    reply: UploadReply)

  datatype SubmitOutcome =
    | Rejected  // "Please select a file and enter a passphrase": nothing else happens
    | Failed    // the catch block: "Failed to upload document"
    | Uploaded  // "Document encrypted and uploaded successfully!"

  datatype UploadRun = UploadRun(calls: seq<Call>, outcome: SubmitOutcome)

  /** The position of each upload call in the fixed order of the handler. */
  function UploadStep(c: Call): nat
  {
    match c
    case ReadFile => 0
    case EncryptText(_, _) => 1
    case RequestUploadUrl => 2
    case PostBlob(_, _) => 3
    case SaveMetadata(_, _, _, _) => 4
    case _ => 5
  }

  /** The calls one submission makes and how it ends, given the form's file and passphrase. */
  function SubmitRun(file: Option<LocalFile>, passphrase: string, cipher: Cipher, caller: Option<UserId>, w: UploadWorld)
    : (r: UploadRun)
    ensures r.outcome.Rejected? <==> file.None? || passphrase == ""
    ensures r.outcome.Rejected? ==> r.calls == []
    // a file that cannot be read fails before anything else
    ensures !r.outcome.Rejected? && !w.readable ==> r == UploadRun([ReadFile], Failed)
    // an unauthenticated caller is refused an upload URL: nothing is POSTed
    ensures !r.outcome.Rejected? && w.readable && caller.None? ==>
      r == UploadRun([ReadFile, EncryptText(Encode(file.value.bytes), passphrase), RequestUploadUrl], Failed)
    // a POST that throws, answers !ok or names no storage id: nothing is registered
    ensures !r.outcome.Rejected? && w.readable && caller.Some? && (w.reply.PostThrows? || !w.reply.ok || w.reply.storageId.None?) ==>
      r == UploadRun([ReadFile, EncryptText(Encode(file.value.bytes), passphrase), RequestUploadUrl,
                      PostBlob(w.slot, cipher.encrypt(Encode(file.value.bytes), passphrase, w.salt))], Failed)
    // every step succeeds: saveFile registers the POST's storage id and the submission succeeds
    ensures forall sid :: !r.outcome.Rejected? && w.readable && caller.Some? && w.reply == PostResponse(true, Some(sid)) ==>
      r == UploadRun([ReadFile, EncryptText(Encode(file.value.bytes), passphrase), RequestUploadUrl,
                      PostBlob(w.slot, cipher.encrypt(Encode(file.value.bytes), passphrase, w.salt)),
                      SaveMetadata(sid, file.value.name, |file.value.bytes| as real, file.value.mimeType)], Uploaded)
  {
    if file.None? || passphrase == "" then UploadRun([], Rejected)
    else if !w.readable then UploadRun([ReadFile], Failed)
    else
      var f := file.value;
      var fileBase64 := Encode(f.bytes);
      var encrypted := cipher.encrypt(fileBase64, passphrase, w.salt);
      var prefix := [ReadFile, EncryptText(fileBase64, passphrase), RequestUploadUrl];
      match FileTable.GenerateUploadUrl(caller, w.slot)
      case Err(_) => UploadRun(prefix, Failed)
      case Ok(uploadUrl) =>
        var posted := prefix + [PostBlob(uploadUrl, encrypted)];
        match w.reply
        case PostThrows => UploadRun(posted, Failed)
        case PostResponse(ok, storageId) =>
          if !ok || storageId.None? then UploadRun(posted, Failed)
          else
            UploadRun(posted + [SaveMetadata(storageId.value, f.name, |f.bytes| as real, f.mimeType)],
                      if caller.None? then Failed else Uploaded)
  }

  /** The calls of a submission are a prefix of read, encrypt, request URL, POST, saveFile: each
      happens at most once and never out of order (which step a failure stops at is stated by
      `SubmitRun`'s own contract). */
  lemma SubmitCallsFollowFixedOrder(file: Option<LocalFile>, passphrase: string, cipher: Cipher, caller: Option<UserId>, w: UploadWorld)
    ensures var calls := SubmitRun(file, passphrase, cipher, caller, w).calls;
      |calls| <= 5 && forall i :: 0 <= i < |calls| ==> UploadStep(calls[i]) == i
  {
  }

  /** Metadata is registered only after a POST answered `ok` with a storage id: saveFile gets
      that id, the plaintext file's own name, type and size (not the ciphertext's length), and
      the submission succeeds (the converse is `UploadedOnlyAfterSave`). */
  lemma NoMetadataWithoutUpload(file: Option<LocalFile>, passphrase: string, cipher: Cipher, caller: Option<UserId>, w: UploadWorld,
                                sid: StorageId, name: string, size: real, mimeType: string)
    requires SaveMetadata(sid, name, size, mimeType) in SubmitRun(file, passphrase, cipher, caller, w).calls
    ensures w.readable && w.reply == PostResponse(true, Some(sid))
    ensures file.Some? && name == file.value.name && mimeType == file.value.mimeType
    ensures size == |file.value.bytes| as real
    ensures caller.Some? && SubmitRun(file, passphrase, cipher, caller, w).outcome == Uploaded
  {
  }

  /** A submission succeeds only when its last call was saveFile, with the storage id the POST
      answered and the file's own name, size and type: together with `NoMetadataWithoutUpload`,
      a submission succeeds exactly when saveFile was called. */
  lemma UploadedOnlyAfterSave(file: Option<LocalFile>, passphrase: string, cipher: Cipher, caller: Option<UserId>, w: UploadWorld)
    requires SubmitRun(file, passphrase, cipher, caller, w).outcome == Uploaded
    ensures file.Some? && caller.Some? && w.reply.PostResponse? && w.reply.storageId.Some?
    ensures var calls := SubmitRun(file, passphrase, cipher, caller, w).calls;
      |calls| == 5 &&
      calls[4] == SaveMetadata(w.reply.storageId.value, file.value.name, |file.value.bytes| as real, file.value.mimeType)
  {
  }

  /** The storage tier receives only the ciphertext of the base64 text of the file, at the URL
      the directory handed out. */
  lemma PostCarriesOnlyCiphertext(file: Option<LocalFile>, passphrase: string, cipher: Cipher, caller: Option<UserId>, w: UploadWorld,
                                  url: Url, body: string)
    requires PostBlob(url, body) in SubmitRun(file, passphrase, cipher, caller, w).calls
    ensures file.Some? && passphrase != "" && caller.Some?
    ensures url == w.slot && body == cipher.encrypt(Encode(file.value.bytes), passphrase, w.salt)
  {
  }

  class UploadForm {
    var file: Option<LocalFile>
    var passphrase: string
    var uploading: bool
    /** The collaborator calls made so far. */
    ghost var calls: seq<Call>

    constructor ()
      ensures file == None && passphrase == "" && !uploading && calls == []
    {
      file, passphrase, uploading := None, "", false;
      calls := [];
    }

    /** `handleSubmit`: on success the row is registered, the form is cleared and `onSuccess`
        switches the app back to the list; on any failure nothing of that happens; the
        `uploading` flag is down again whatever the outcome. */
    method HandleSubmit(app: SecureFiles, table: FileTable, cipher: Cipher, caller: Option<UserId>, w: UploadWorld)
      returns (outcome: SubmitOutcome)
      requires table.Valid()
      modifies this, app, table
      ensures table.Valid()
      ensures calls == old(calls) + SubmitRun(old(file), old(passphrase), cipher, caller, w).calls
      ensures outcome == SubmitRun(old(file), old(passphrase), cipher, caller, w).outcome
      ensures outcome.Uploaded? <==>
        && old(file).Some? && old(passphrase) != "" && w.readable && caller.Some?
        && w.reply.PostResponse? && w.reply.ok && w.reply.storageId.Some?
      ensures outcome.Uploaded? ==>
        table.records == old(table.records) + [FileRecord(old(table.nextId), old(table.clock),
          w.reply.storageId.value, old(file).value.name, |old(file).value.bytes| as real,
          old(file).value.mimeType, caller.value)]
      ensures !outcome.Uploaded? ==> table.records == old(table.records)
      ensures uploading == (if outcome.Rejected? then old(uploading) else false)
      ensures outcome.Uploaded? ==> file == None && passphrase == "" && app.view == ListView
      ensures !outcome.Uploaded? ==>
        file == old(file) && passphrase == old(passphrase) && app.view == old(app.view)
      ensures app.selectedFile == old(app.selectedFile)
    {
      if file.None? || passphrase == "" {
        assert calls + [] == calls;
        return Rejected;
      }
      ghost var run := SubmitRun(file, passphrase, cipher, caller, w);
      uploading := true;
      var f := file.value;
      ghost var made: seq<Call>;
      if !w.readable {
        made := [ReadFile];
        outcome := Failed;
      } else {
        var fileBase64 := Encode(f.bytes);
        var encrypted := cipher.encrypt(fileBase64, passphrase, w.salt);
        made := [ReadFile, EncryptText(fileBase64, passphrase), RequestUploadUrl];
        var uploadUrl := FileTable.GenerateUploadUrl(caller, w.slot);
        if uploadUrl.Err? {
          outcome := Failed;
        } else {
          made := made + [PostBlob(uploadUrl.value, encrypted)];
          if w.reply.PostThrows? || !w.reply.ok || w.reply.storageId.None? {
            outcome := Failed;
          } else {
            var storageId := w.reply.storageId.value;
            var size := |f.bytes| as real;
            made := made + [SaveMetadata(storageId, f.name, size, f.mimeType)];
            var saved := table.SaveFile(caller, storageId, f.name, size, f.mimeType);
            if saved.Err? {
              outcome := Failed;
            } else {
              file := None;
              passphrase := "";
              app.ShowList();
              outcome := Uploaded;
            }
          }
        }
      }
      assert made == run.calls;
      calls := calls + made;
      uploading := false;
    }
  }

  // ===== Download: DecryptView.handleDecrypt (src/SecureFiles.tsx:214-264) =====

  /** How the download fetch completes: it throws, or answers with its `ok` flag and its text. */
  datatype DownloadReply = FetchThrows | FetchResponse(ok: bool, text: string)

  datatype DecryptOutcome =
    | Refused                    // "Please enter the passphrase": nothing is fetched
    | DownloadFailed             // the outer catch: "Failed to download or decrypt document"
    | WrongPassphrase            // the inner catch: "Failed to decrypt document. Check your passphrase."
    | Downloaded(bytes: seq<Byte>)

  datatype DecryptRun = DecryptRun(calls: seq<Call>, outcome: DecryptOutcome)

  /** The value `useQuery(api.files.getFileUrl, ...)` leaves in `fileUrl`: the URL once the
      query has answered with one, and nothing while it loads, when the blob has no URL, or
      when the query failed. */
  function LoadedUrl(answer: Result<Option<Url>>): (r: Option<Url>)
    ensures r.Some? <==> answer.Ok? && answer.value.Some?
    ensures r.Some? ==> r.value == answer.value.value
  {
    if answer.Ok? then answer.value else None
  }

  /** Lines 233-240: decrypt, refuse an empty result as a wrong passphrase, then base64-decode;
      None where the inner try block throws. */
  function RecoverDocument(cipher: Cipher, text: string, passphrase: string): (r: Option<seq<Byte>>)
    ensures cipher.decrypt(text, passphrase) == Some("") ==> r == None
    ensures cipher.decrypt(text, passphrase).None? ==> r == None
    ensures forall s :: cipher.decrypt(text, passphrase) == Some(s) && s != "" ==> r == Decode(s)
    ensures r.Some? ==>
      cipher.decrypt(text, passphrase).Some? && Decode(cipher.decrypt(text, passphrase).value) == r
  {
    match cipher.decrypt(text, passphrase)
    case None => None
    case Some(fileBase64) => if fileBase64 == "" then None else Decode(fileBase64)
  }

  /** The calls one press of "Decrypt & Download" makes and how it ends. */
  function DecryptRunOf(file: FileRecord, passphrase: string, fileUrl: Option<Url>, cipher: Cipher, reply: DownloadReply)
    : (r: DecryptRun)
    // `!fileUrl` refuses an empty URL string as it refuses a missing one
    ensures r.outcome.Refused? <==> passphrase == "" || fileUrl.None? || fileUrl.value == ""
    ensures r.outcome.Refused? ==> r.calls == []
    ensures !r.outcome.Refused? ==> |r.calls| >= 1 && r.calls[0] == FetchBlob(fileUrl.value)
    ensures r.outcome.Downloaded? <==> exists i :: 0 <= i < |r.calls| && r.calls[i].DownloadFile?
    // the outer catch: a fetch that throws or answers !ok ends the run after the fetch
    ensures !r.outcome.Refused? && (reply.FetchThrows? || !reply.ok) ==>
      r == DecryptRun([FetchBlob(fileUrl.value)], DownloadFailed)
    // an ok reply: fetch, then decrypt, then either the inner catch or the download
    ensures !r.outcome.Refused? && reply.FetchResponse? && reply.ok ==>
      |r.calls| >= 2 && r.calls[..2] == [FetchBlob(fileUrl.value), DecryptText(reply.text, passphrase)] &&
      (r.outcome == WrongPassphrase <==> RecoverDocument(cipher, reply.text, passphrase) == None) &&
      (r.outcome == WrongPassphrase ==> |r.calls| == 2)
    ensures !r.outcome.Refused? && reply.FetchResponse? && reply.ok ==>
      forall b :: RecoverDocument(cipher, reply.text, passphrase) == Some(b) ==>
        r.outcome == Downloaded(b) && r.calls == [FetchBlob(fileUrl.value), DecryptText(reply.text, passphrase), DownloadFile(b, file.filename, file.mimeType)]
  {
    if passphrase == "" || fileUrl.None? || fileUrl.value == "" then DecryptRun([], Refused)
    else
      var fetched := [FetchBlob(fileUrl.value)];
      match reply
      case FetchThrows => DecryptRun(fetched, DownloadFailed)
      case FetchResponse(ok, text) =>
        if !ok then DecryptRun(fetched, DownloadFailed)
        else
          var tried := fetched + [DecryptText(text, passphrase)];
          match RecoverDocument(cipher, text, passphrase)
          case None => DecryptRun(tried, WrongPassphrase)
          case Some(bytes) =>
            var run := DecryptRun(tried + [DownloadFile(bytes, file.filename, file.mimeType)], Downloaded(bytes));
            assert run.calls[2].DownloadFile?;
            run
  }

  class DecryptView {
    const file: FileRecord
    var passphrase: string
    var decrypting: bool
    /** The collaborator calls made so far. */
    ghost var calls: seq<Call>

    constructor (file: FileRecord)
      ensures this.file == file && passphrase == "" && !decrypting && calls == []
    {
      this.file := file;
      passphrase, decrypting := "", false;
      calls := [];
    }

    /** `handleDecrypt`, with `fileUrl` the value of the getFileUrl query. */
    method HandleDecrypt(fileUrl: Option<Url>, cipher: Cipher, reply: DownloadReply) returns (outcome: DecryptOutcome)
      modifies this
      ensures calls == old(calls) + DecryptRunOf(file, passphrase, fileUrl, cipher, reply).calls
      ensures outcome == DecryptRunOf(file, passphrase, fileUrl, cipher, reply).outcome
      ensures decrypting == (if outcome.Refused? then old(decrypting) else false)
      ensures passphrase == old(passphrase)
    {
      if passphrase == "" || fileUrl.None? || fileUrl.value == "" {
        return Refused;
      }
      decrypting := true;
      calls := calls + [FetchBlob(fileUrl.value)];
      if reply.FetchThrows? || !reply.ok {
        outcome := DownloadFailed;
      } else {
        var encryptedText := reply.text;
        calls := calls + [DecryptText(encryptedText, passphrase)];
        var decrypted := cipher.decrypt(encryptedText, passphrase);
        if decrypted.None? || decrypted.value == "" {
          outcome := WrongPassphrase;
        } else {
          var decoded := Decode(decrypted.value);
          if decoded.None? {
            outcome := WrongPassphrase;
          } else {
            calls := calls + [DownloadFile(decoded.value, file.filename, file.mimeType)];
            outcome := Downloaded(decoded.value);
          }
        }
      }
      decrypting := false;
    }
  }

  // ===== End-to-end properties =====

  /** Nothing is fetched unless the directory let the caller through: the URL the view fetches
      is the blob store's URL for a storage id that exactly one row of the caller carries. */
  lemma FetchOnlyWhenAuthorized(table: FileTable, caller: Option<UserId>, file: FileRecord, getUrl: StorageId -> Option<Url>,
                                passphrase: string, cipher: Cipher, reply: DownloadReply, url: Url)
    requires FetchBlob(url) in DecryptRunOf(file, passphrase, LoadedUrl(table.GetFileUrl(caller, file.storageId, getUrl)), cipher, reply).calls
    ensures caller.Some? && HasHandle(table.records, caller.value, file.storageId)
    ensures !HasDuplicateHandle(table.records, caller.value, file.storageId)
    ensures getUrl(file.storageId) == Some(url)
  {
    var fileUrl := LoadedUrl(table.GetFileUrl(caller, file.storageId, getUrl));
    var run := DecryptRunOf(file, passphrase, fileUrl, cipher, reply);
    var i :| 0 <= i < |run.calls| && run.calls[i] == FetchBlob(url);
    assert i == 0;
  }

  /** Upload then download: if the cipher inverts itself, fetching back the body that was
      POSTed and decrypting it with the same passphrase yields the original bytes, for every
      non-empty document. */
  lemma UploadThenDecryptRoundTrip(file: LocalFile, passphrase: string, cipher: Cipher, caller: Option<UserId>, w: UploadWorld,
                                   url: Url, body: string, record: FileRecord, fileUrl: Url)
    requires DecryptInvertsEncrypt(cipher)
    requires file.bytes != [] && fileUrl != ""
    requires PostBlob(url, body) in SubmitRun(Some(file), passphrase, cipher, caller, w).calls
    ensures DecryptRunOf(record, passphrase, Some(fileUrl), cipher, FetchResponse(true, body)).outcome == Downloaded(file.bytes)
  {
    PostCarriesOnlyCiphertext(Some(file), passphrase, cipher, caller, w, url, body);
    var fileBase64 := Encode(file.bytes);
    assert cipher.decrypt(body, passphrase) == Some(fileBase64);
    DecodeEncode(file.bytes);
  }

  /** A zero-byte document passes the form's checks and is stored, yet it can never be
      decrypted: its plaintext is the empty text, which the handler takes for a wrong
      passphrase, so nothing is downloaded. */
  lemma EmptyDocumentNeverDecrypts(file: LocalFile, passphrase: string, cipher: Cipher, caller: Option<UserId>, w: UploadWorld,
                                   url: Url, body: string, record: FileRecord, fileUrl: Url)
    requires DecryptInvertsEncrypt(cipher)
    requires file.bytes == [] && passphrase != "" && fileUrl != ""
    requires PostBlob(url, body) in SubmitRun(Some(file), passphrase, cipher, caller, w).calls
    ensures DecryptRunOf(record, passphrase, Some(fileUrl), cipher, FetchResponse(true, body)).outcome == WrongPassphrase
  {
    PostCarriesOnlyCiphertext(Some(file), passphrase, cipher, caller, w, url, body);
    assert cipher.decrypt(body, passphrase) == Some(Encode([]));
  }

  // ===== The view switch of SecureFiles (src/SecureFiles.tsx:11-59) =====

  datatype View = ListView | UploadView | DecryptMode

  /** What `SecureFiles` renders below its navigation. */
  datatype Screen = FilesList | UploadFormScreen | DecryptScreen(file: FileRecord) | Nothing

  class SecureFiles {
    var view: View
    var selectedFile: Option<FileRecord>

    /** The decrypt view is only ever entered with a file selected. */
    ghost predicate Valid()
      reads this
    {
      view == DecryptMode ==> selectedFile.Some?
    }

    constructor ()
      ensures Valid() && view == ListView && selectedFile == None
    {
      view, selectedFile := ListView, None;
    }

    /** "My Documents", `onSuccess` of the upload form and `onBack` of the decrypt view. */
    method ShowList()
      modifies this
      ensures Valid() && view == ListView && selectedFile == old(selectedFile)
    {
      view := ListView;
    }

    /** "Upload Document". */
    method ShowUpload()
      modifies this
      ensures Valid() && view == UploadView && selectedFile == old(selectedFile)
    {
      view := UploadView;
    }

    /** `onDecrypt` of the files list: select the file, then show the decrypt view. */
    method OpenDecrypt(f: FileRecord)
      modifies this
      ensures Valid() && view == DecryptMode && selectedFile == Some(f)
    {
      selectedFile := Some(f);
      view := DecryptMode;
    }

    function Render(): (s: Screen)
      reads this
      ensures s.DecryptScreen? ==> view == DecryptMode && selectedFile == Some(s.file)
      ensures s == FilesList <==> view == ListView
      ensures s == UploadFormScreen <==> view == UploadView
      ensures Valid() ==> s != Nothing
    {
      match view
      case ListView => FilesList
      case UploadView => UploadFormScreen
      case DecryptMode => if selectedFile.Some? then DecryptScreen(selectedFile.value) else Nothing
    }
  }
}
