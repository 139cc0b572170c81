# Encrypted document vault: a Dafny model

A model of the core of a small end-to-end encrypted document store. A signed-in user picks a
file, types a passphrase, and the browser encrypts the file before uploading it. The server
keeps only a table of file records, one per upload, and hands a download URL only to the
record's owner. Downloading decrypts the file locally with the passphrase.

The model has four modules:

- `Base64` (`base64.dfy`). The byte/text transcoding the client applies before encryption
  (`btoa(String.fromCharCode(...bytes))`) and after decryption (`atob`, read back byte by byte).
  Encoding follows section 4 of RFC 4648. Decoding follows the "forgiving-base64 decode" algorithm
  of the WHATWG Infra standard, which `atob` uses: it removes ASCII whitespace,
  tolerates missing padding and rejects foreign characters. The round trip is proved for every
  byte sequence.
- `VaultDirectory` (`vault_directory.dfy`). The server's `files` table as a class `FileTable`.
  It holds the record fields of `convex/schema.ts` plus the id and creation time the backend
  assigns. It has the four handlers of `convex/files.ts`, each given the caller identity
  (`None` when unauthenticated). `saveFile` is a method appending one row. `myFiles` and
  `getFileUrl` are functions over the table: the owner index read newest first, and a
  `.unique()` lookup by storage id. The blob store's `getUrl` is a function parameter, and the
  upload URL it issues is a value parameter.
- `Transfer` (`transfer.dfy`). The client handlers of `src/SecureFiles.tsx` as classes with the
  component's state as fields:
  - `UploadForm.HandleSubmit`: validate, read, transcode, encrypt, request an upload URL,
    POST, check `ok`, read `storageId`, `saveFile`.
  - `DecryptView.HandleDecrypt`: validate, fetch, decrypt, treat an empty result as a wrong
    passphrase, decode.
  - The list/upload/decrypt switch of `SecureFiles`.

  The cipher is an abstract pair of functions. Reading the file, the POST reply and the
  download reply are parameters, so any outcome can be chosen. Each handler is proved equal to
  a pure description of its run (`SubmitRun`, `DecryptRunOf`): the calls it makes, in order,
  and how it ends. The ordering, "no metadata without upload" and round-trip properties are
  lemmas about those descriptions.
- `Optional` (`optional.dfy`). The Option datatype.

One consequence of the code as written is proved as a lemma (`EmptyDocumentNeverDecrypts`):
a zero-byte file passes the upload form's checks and is stored. Its decrypted text is the
empty string, which the decrypt handler takes for a wrong passphrase. So the content of such
a document can never be recovered with the passphrase it was encrypted under.

Some facts about the code that the model keeps:

- The code sets no key-derivation parameters: the cipher's passphrase mode derives the key
  itself. Its output carries no authentication tag, so the only wrong-key check is the
  empty-string test.
- A duplicate storage id raises no conflict error; `saveFile` accepts it. If the same user
  holds both rows, `getFileUrl` of that id fails for that user from then on
  (`DuplicateSaveScenario`). If different users save the same id, each of them holds one row
  and gets the URL.
- The code neither enforces nor checks that an upload slot is used once or before it expires.
  The model gives the blob store no such rule either.
- The client encrypts a base64 re-encoding of the bytes and uploads the ciphertext as text.

## Model

| member | source | states |
|---|---|---|
| `Base64.EncodeUnpadded` | src/SecureFiles.tsx:84 | every output character is in the RFC 4648 alphabet; the length is 4 per full group of three bytes, plus 2 or 3 for a final group of 1 or 2 bytes, and is never 4k+1 |
| `Base64.Encode` | src/SecureFiles.tsx:84 | the `btoa` output is a multiple of four characters, exactly 4·⌈n/3⌉ for n bytes; it uses only alphabet characters and '='; it is empty exactly when the input is |
| `Base64.Decode` | src/SecureFiles.tsx:240 | `atob` followed by the byte-per-character read fails exactly when the text, with ASCII whitespace removed and final padding stripped, has length 4k+1 or holds a character outside the alphabet; otherwise it yields 6 bits per remaining character, rounded down to whole bytes |
| `Base64.DecodeEncode` | src/SecureFiles.tsx:240 | decoding inverts encoding: `atob` of `btoa(b)`, read back code by code, is `b` for every byte sequence, empty included |
| `Base64.DecodeRejectsForeignChar` | src/SecureFiles.tsx:240 | `atob` fails on any input holding a character that is not in the alphabet, not '=' and not ASCII whitespace |
| `VaultDirectory.OwnerIndexDesc` | convex/files.ts:50-54 | the owner-index query returns exactly the rows whose `ownerId` is the given user, and no more rows than the table has |
| `VaultDirectory.OwnerIndexDescNewestFirst` | convex/files.ts:53 | on a table kept in insertion order, the owner-index query yields strictly decreasing creation times (newest first) |
| `VaultDirectory.Matching` | convex/files.ts:68-71 | the index-then-filter lookup only yields rows of the caller that carry the requested storage id |
| `VaultDirectory.MatchingCount` | convex/files.ts:68-72 | the lookup is empty exactly when no row of the caller carries the storage id, and has two or more rows exactly when two distinct rows of the caller carry it |
| `VaultDirectory.UniqueMatch` | convex/files.ts:72 | `.unique()` gives "none" exactly when the caller has no such row; otherwise it gives a matching row of the table; it fails exactly when two of the caller's rows match |
| `VaultDirectory.DuplicateHandleBlocksLookup` | convex/files.ts:68-72 | once two rows of a user carry the same storage id, the lookup of that id fails with the uniqueness error, whatever rows are added after them |
| `VaultDirectory.FileTable.constructor` | convex/schema.ts:6-12 | a new table is empty and satisfies the table invariant (ids unique, creation times strictly increasing) |
| `VaultDirectory.FileTable.GenerateUploadUrl` | convex/files.ts:6-15 | an unauthenticated caller gets "Not authenticated"; any other caller gets the URL the blob store issued; the table is neither read nor changed |
| `VaultDirectory.FileTable.SaveFile` | convex/files.ts:18-39 | unauthenticated: "Not authenticated" and the table unchanged; otherwise exactly one row is appended with the arguments' fields, owner = caller, a fresh id and a later creation time, and every earlier row is kept; other users' listings are unchanged; the caller's listing gains the new row at its head; the invariant is preserved |
| `VaultDirectory.FileTable.MyFiles` | convex/files.ts:42-56 | unauthenticated: the empty list; otherwise exactly the caller's rows, in strictly decreasing creation time |
| `VaultDirectory.FileTable.GetFileUrl` | convex/files.ts:59-80 | unauthenticated: "Not authenticated"; otherwise a URL (`getUrl` of the id) exactly when one row of the caller carries the id; "File not found or access denied" exactly when none does, whoever else owns the id; the uniqueness error exactly when two do |
| `VaultDirectory.OwnershipIsolationScenario` | convex/files.ts:42-80 | after user a saves a file, a's listing holds that one row; user b's listing is empty, and b's request for its URL gets the same error as for a missing file |
| `VaultDirectory.SaveEach` | convex/files.ts:18-39 | a series of `saveFile` calls keeps the table invariant and keeps every existing row at its position |
| `VaultDirectory.SaveTwice` | convex/files.ts:18-39 | a user who saves the same storage id twice, with any saves by anyone in between, ends up with two of their rows carrying it |
| `VaultDirectory.DuplicateSaveScenario` | convex/files.ts:18-80 | after such a double save and any later saves, `getFileUrl` of that storage id by that user always fails with the uniqueness error |
| `Transfer.SubmitRun` | src/SecureFiles.tsx:69-124 | a submission is rejected, with no call at all, exactly when no file is selected or the passphrase is empty; otherwise an unreadable file stops after the read, an unauthenticated caller stops after the upload-URL request, a POST that throws, answers not-ok or names no storage id stops after the POST, each as a failure; when every step succeeds, saveFile is called with the POST's storage id and the file's name, plaintext size and type, and the submission succeeds |
| `Transfer.SubmitCallsFollowFixedOrder` | src/SecureFiles.tsx:84-112 | the calls of a submission are a prefix of read, encrypt, generateUploadUrl, POST, saveFile: each happens at most once and in that order |
| `Transfer.NoMetadataWithoutUpload` | src/SecureFiles.tsx:100-112 | saveFile is called only after the file was read and the POST answered `ok` with a storage id; it gets that id, the file's name and type, and the plaintext size (not the ciphertext length); the caller was authenticated and the submission succeeded |
| `Transfer.UploadedOnlyAfterSave` | src/SecureFiles.tsx:100-117 | a submission succeeds only with five calls, the last being saveFile with the POST's storage id and the file's name, plaintext size and type; with the previous lemma, success and a saveFile call go together |
| `Transfer.PostCarriesOnlyCiphertext` | src/SecureFiles.tsx:84-98 | the POST goes to the URL the directory issued, and its body is the cipher's output on the base64 text of the file |
| `Transfer.UploadForm.constructor` | src/SecureFiles.tsx:62-64 | the form starts with no file, an empty passphrase, and not uploading |
| `Transfer.UploadForm.HandleSubmit` | src/SecureFiles.tsx:69-124 | the calls made and the outcome are those of `SubmitRun`; the submission succeeds exactly when a file and a passphrase were given, the file read, the caller is authenticated and the POST answered ok with a storage id; on success exactly one row is added with that storage id, the file's metadata and the caller as owner, the form is cleared and the view returns to the list; otherwise the table, the file, the passphrase and the view are unchanged; `uploading` ends down whenever it was raised |
| `Transfer.LoadedUrl` | src/SecureFiles.tsx:212 | the view holds a URL exactly when the directory answered with one |
| `Transfer.RecoverDocument` | src/SecureFiles.tsx:232-240 | a failed or empty decryption yields no bytes (the inner catch); a non-empty decryption yields exactly its base64 decoding, which fails where `atob` throws |
| `Transfer.DecryptRunOf` | src/SecureFiles.tsx:214-264 | refused, with no call, exactly when the passphrase is empty or no URL, or an empty URL string, is available; a fetch that throws or answers not-ok ends after the fetch as the outer catch's failure; an ok reply is fetched then decrypted, ends as "wrong passphrase" exactly when the document cannot be recovered (with no further call), and otherwise hands the recovered bytes to the browser under the record's name and type; a file is handed over exactly when the outcome is a download |
| `Transfer.DecryptView.constructor` | src/SecureFiles.tsx:208-210 | the view starts with an empty passphrase and not decrypting |
| `Transfer.DecryptView.HandleDecrypt` | src/SecureFiles.tsx:214-264 | the calls made and the outcome are those of `DecryptRunOf`; `decrypting` ends down whenever it was raised; the passphrase is kept |
| `Transfer.FetchOnlyWhenAuthorized` | src/SecureFiles.tsx:212-224 | if the decrypt view fetches a URL, the directory authorized the caller: exactly one of the caller's rows carries the storage id, and the URL is the blob store's URL for it |
| `Transfer.UploadThenDecryptRoundTrip` | src/SecureFiles.tsx:84-240 | if decryption with the same passphrase inverts encryption, fetching back the POSTed body of a non-empty file from a non-empty URL and decrypting it with the same passphrase yields the original bytes |
| `Transfer.EmptyDocumentNeverDecrypts` | src/SecureFiles.tsx:233-237 | under the same assumption, a zero-byte file that was uploaded, fetched from a non-empty URL with the passphrase it was encrypted under, always ends as "wrong passphrase", with nothing downloaded |
| `Transfer.SecureFiles.constructor` | src/SecureFiles.tsx:12-13 | the app starts on the list with no file selected |
| `Transfer.SecureFiles.ShowList` | src/SecureFiles.tsx:20 | switches to the list and keeps the selection |
| `Transfer.SecureFiles.ShowUpload` | src/SecureFiles.tsx:30 | switches to the upload form and keeps the selection |
| `Transfer.SecureFiles.OpenDecrypt` | src/SecureFiles.tsx:44-47 | selects the file and then shows the decrypt view, so the decrypt view always has a file |
| `Transfer.SecureFiles.Render` | src/SecureFiles.tsx:42-56 | the list and the upload form are shown exactly in their views; the decrypt view shows the selected file; in a valid state something is always shown |

## Left out

- The AES cipher of CryptoJS (key derivation, salt, container format) is an abstract pair of functions. The random salt is a parameter. Only two lemmas assume that decryption with the same passphrase inverts encryption.
- The network, storage and transport are parameters: the file read, the URL the blob store issues, the replies of both `fetch` calls, and `getUrl`. URL lifetimes are not modelled.
- The caller identity (`getAuthUserId`) is a parameter. One submission uses one identity for all its server calls; a session that ends mid-submission is not modelled.
- A POST reply whose JSON has no `storageId` ends the model's submission before `saveFile`. In the code, `saveFile` is called and the server's argument validator rejects it. The table is unchanged either way.
- The server-side argument validators (`v.id`, `v.string`, `v.number`) are not modelled. `size` is a `real`, and NaN or infinities are not represented.
- Record ids are natural numbers from a counter. Creation times come from a logical clock that strictly increases. The real ones are backend strings and millisecond timestamps.
- `String.fromCharCode(...fileBytes)` spreads every byte as an argument, and engines refuse very large argument lists. That throw lands in the same catch as other failures before any server call; the model does not include it.
- Browser side effects: the Blob, the object URL and the anchor click are one `DownloadFile` call in the trace. A failure in them, which the code reports as a wrong passphrase, is not modelled. Toasts and `console.error` are shown only as the outcome values.
- `LoadedUrl`: an error thrown by the `getFileUrl` query surfaces while rendering, not in the handler. It is modelled as "no URL".
- React rendering, styling, the KB size display and date formatting are left out. So is the reactivity of queries: each handler is one atomic step.
- The form's `onChange` setters are not modelled as methods: the handlers read the `file` and `passphrase` fields directly.
- `src/App.tsx` (authentication gating around the component) and `tailwind.config.js` are not part of this model.
