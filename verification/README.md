# qr-share-app: artifact naming and storage, in Dafny

This project models the core of `app.py`, a small Flask application that
lets a sender upload a file and a recipient download it through a link or
QR code. The `index` handler (`/`) encrypts the uploaded bytes with a fresh
Fernet key and writes three artifacts: the ciphertext as
`<id>_<original>.enc` in the uploads folder, the key as `<id>.key` in the
keys folder, and a QR image of the download link as `<id>.png` in the
qrcodes folder. The page it returns shows the QR image and the key. The
`download` handler (`/download/<filename>`) takes the id from the requested
file name (everything before the first `_`), reads `<id>.key` and then the
ciphertext, and decrypts. Only then does it recover the original name, by
dropping `.enc` and splitting at the first `_`. It writes the plaintext as
`dec_<original>` in the uploads folder and sends it back.

Layout:

- `wrappers.dfy` (`Wrappers`): `Option`.
- `text.dfy` (`Text`): the Python string operations the handlers call,
  `split(c)[0]`, `split(c, 1)[1]` and the single left-to-right pass of
  `replace`. It also defines the last `/`-separated piece of a string, which is what
  the single-segment `<filename>` route receives, and substring and suffix
  tests used to state the lemmas.
- `naming.dfy` (`Naming`): the naming scheme and its round-trip lemmas.
- `external.dfy` (`External`): bytes and the foreign libraries. Fernet and
  QR rendering are a record of functions passed as a parameter. Fernet's
  promise that decryption inverts encryption is the predicate
  `DecryptInvertsEncrypt`, stated for well-formed keys only. The round-trip
  lemma takes it as a precondition, together with the uploaded key being
  well-formed, as a generated key is.
- `app.dfy` (`App`): the three folders as maps from name to bytes.
  `HandleIndex` and `HandleDownload` specify the two handlers as functions
  of the folders. The class `Server` holds the folders as map fields; its
  methods `Index` and `Download` update them step by step and are proved
  equal to those functions. Lemmas state the upload/download round trip and
  what a download leaves alone.

The uuid of an upload and its generated key are inputs. Lemmas that need
the id to parse back assume it has no `_` and no `.`, which holds for the
text form of a uuid4.

## Model

| member | source | states |
|---|---|---|
| `Text.BeforeFirst` | app.py:70 | `split("_")[0]` is the longest prefix without `_`; it is followed by `_` unless it is the whole string |
| `Text.AfterFirst` | app.py:84 | `split("_", 1)[1]` fails (IndexError, `None`) exactly when there is no `_`; otherwise the string is prefix, `_`, then the result |
| `Text.AfterLast` | app.py:65 | the last `/`-separated piece is a suffix with no `/`, preceded by `/` unless it is the whole string |
| `Text.Replace` | app.py:84 | `replace` leaves a string without the pattern unchanged; with an empty replacement it never lengthens and strictly shortens when the pattern occurs |
| `Text.SplitAtFirst` | app.py:70 | splitting `a + "_" + b` where `a` has no `_` gives back `a` before and `b` after |
| `Naming.StorageName` | app.py:34 | the storage name is the id, one `_`, the uploaded name, then the `.enc` ending |
| `Naming.KeyName` | app.py:48 | the key name is the id followed by the `.key` ending |
| `Naming.QrName` | app.py:56 | the QR image name is the id followed by the `.png` ending |
| `Naming.QrPagePath` | app.py:60 | the path handed to the page is the `static/qrcodes/` folder followed by the QR image name of line 56 |
| `Naming.QrPagePathNamesImage` | app.py:56-60 | for an id without `/`, the last piece of the path handed to the page is the QR image name written at line 56 |
| `Naming.DownloadUrl` | app.py:54 | the link is the render domain, `/download/`, then the storage name of line 34 |
| `Naming.IdOf` | app.py:70 | the parsed id is the longest prefix of the requested name without `_`, followed by `_` unless it is the whole name |
| `Naming.OriginalNameOf` | app.py:84 | parsing fails (IndexError) exactly when no `_` is left after dropping `.enc`; otherwise the result is everything after the first `_` |
| `Naming.DecryptedName` | app.py:85 | the plaintext name is `dec_` followed by the original name |
| `Naming.DecryptedNameId` | app.py:70-85 | the id a later download would parse (line 70) from a plaintext name written at line 85 is `dec` |
| `Naming.IdOfStorageName` | app.py:70-71 | for an id without `_`, the id download parses out of `<id>_<name>.enc` (built at line 34) is the upload id |
| `Naming.DownloadUrlNamesStorage` | app.py:54 | the last `/`-separated piece of the link text is exactly the storage name of line 34 when id and name have no `/` |
| `Naming.TrailingEncRemoved` | app.py:84 | the `.enc` that upload appends is always removed by the single `replace` pass, whatever precedes it |
| `Naming.OriginalNameOfStorageName` | app.py:84 | for an id without `_` or `.`, the parsed original name is the uploaded name with its `.enc` occurrences dropped in one pass; underscores in the name survive because only the first `_` splits |
| `Naming.OriginalNameExact` | app.py:84 | the parsed name equals the uploaded name if and only if the uploaded name contains no `.enc` |
| `Naming.InnerEncLost` | app.py:84 | the original name recovered from an upload named `a.enc.txt` is `a.txt`, so the plaintext is written and sent as `dec_a.txt` |
| `Naming.SinglePassLeavesEnc` | app.py:84 | `replace` does not remove every `.enc`: the original name recovered from an upload named `..encenc` is `.enc`, so the plaintext is written and sent as `dec_.enc` |
| `Naming.UnderscoresSurvive` | app.py:84 | only the first `_` splits, so the original name recovered from an upload named `a_b` is `a_b`, and the plaintext is written and sent as `dec_a_b` |
| `Naming.DecryptedNameRecovers` | app.py:84-85 | parsing `dec_<name>` gives `name` with its `.enc` occurrences dropped |
| `Naming.DecryptedNameIsNotRequested` | app.py:84-87 | when the requested name ends in `.enc`, the `dec_` name written is never the requested name |
| `App.HandleIndex` | app.py:22-63 | GET returns the form; a POST without a `file` part returns "No file part in request."; an empty filename returns "No selected file."; all three change no folder. Otherwise it returns the QR page path and the key, and adds exactly the ciphertext under `<id>_<name>.enc`, the key under `<id>.key` and the QR image of the download link under `<id>.png` |
| `App.HandleDownload` | app.py:66-94 | never changes keys or qrcodes. A missing key file is reported first, then a missing ciphertext, then a failed decryption, then a name with no `_` after dropping `.enc`; every error leaves all folders unchanged. On success the plaintext is returned as `dec_<original>` and stored under that name, overwriting any earlier entry, with no other upload entry changed |
| `App.Server.constructor` | app.py:10-19 | the three folders start with the given contents |
| `App.Server.Index` | app.py:22-63 | the upload handler updates the folders and answers exactly as `HandleIndex` says |
| `App.Server.Download` | app.py:66-94 | the download handler may modify only the uploads folder, and updates it and answers exactly as `HandleDownload` says |
| `App.UploadThenDownload` | app.py:31-87 | if Fernet decryption inverts encryption under well-formed keys, the generated key is well-formed, and the id has no `_` or `.`, downloading the stored name after an upload returns the uploaded bytes as `dec_<name with .enc dropped>`; that name is `dec_<name>` exactly when the name has no `.enc` |
| `App.DownloadReadsUploadedKey` | app.py:48-75 | after an upload with an id without `_`, the key name download computes from the stored name (lines 70-71) is an entry upload wrote at lines 48-50, holding the uploaded key, and the stored name holds the ciphertext of that key |
| `App.DownloadKeepsCiphertext` | app.py:78-87 | a download of a name ending in `.enc` leaves that ciphertext entry as it was |
| `App.DownloadCanOverwriteRequested` | app.py:70-87 | without the `.enc` ending a download can overwrite the entry it read: a request for `dec_a` reads key `dec.key` and writes the plaintext back over `dec_a` |

## Left out

- Flask routing, `request.files`, `render_template`, `send_file` and the `__main__` runner are not modelled. Requests and responses are plain values, and the share page is its QR path and key.
- The text of the download errors is not modelled. Python's messages hold the absolute folder path and the exception's own text, so the model returns typed errors (`FileNotFound` naming the missing entry, `DecryptionFailed` naming the cause).
- `key.decode()` at line 61 is not modelled: the page carries the key bytes.
- Fernet key generation, encryption and decryption are not modelled. The key is an input, and encryption is a function parameter with its IV and timestamp folded in. Decryption is a function parameter whose `None` covers both a malformed key (ValueError) and a bad token (InvalidToken). The round trip under a well-formed key is the precondition `DecryptInvertsEncrypt`, not a proved fact, and that the generated key is well-formed is a precondition of the round-trip lemma.
- URL escaping and parsing are not modelled. The link at line 54 is built without percent-encoding, so for an uploaded name containing `?`, `#` or `%` the path a browser requests is not the storage name; the lemmas speak of the link as text only.
- `qrcode.make` and PNG saving are a function parameter from the link to image bytes.
- `uuid.uuid4` is an input. The handlers accept any id; only the round-trip lemmas require an id without `_` and `.`.
- Filesystem behaviour is not modelled. This covers `os.path.join`, path traversal through `/`, `..` or absolute names, directory creation at start-up, and I/O failures. A failed write (for example a full disk while writing the `dec_` file) or a failure between the three upload writes would leave a partial state, which the model does not represent; the folders are maps and every write succeeds.
- Expiry, password checks, download counters and concurrent access do not exist in `app.py` and are not modelled.
