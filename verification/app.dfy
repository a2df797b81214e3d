/**
  The two request handlers of the Flask application: `index`, which encrypts
  an uploaded file and stores ciphertext, key and QR image, and `download`,
  which decrypts a stored file and writes the plaintext beside it. The three
  folders are maps from file name to contents.
*/
module App {
  import opened Wrappers
  import opened Text
  import opened Naming
  import opened External

  const NoFilePartMessage := "No file part in request."
  const NoSelectedFileMessage := "No selected file."

  /** The `file` part of a multipart upload. */
  datatype FilePart = FilePart(filename: string, data: Bytes)

  /** A request to `/`: a GET, or a POST that may lack a `file` part. */
  datatype Request = Get | Post(file: Option<FilePart>)

  /** What `index` returns: the empty form, a plain-text error, or the page with QR path and key. */
  datatype IndexResponse =
    | Form
    | Message(body: string)
    | SharePage(qrPath: string, key: Bytes)

  datatype Folder = Uploads | Keys

  /** Why `download` reports "Decryption failed". */
  datatype DecryptFailure = InvalidKeyOrToken | NoUnderscore

  /** What `download` returns: the plaintext as an attachment, or one of its two error texts. */
  datatype DownloadResponse =
    | Attachment(name: string, data: Bytes)
    | FileNotFound(folder: Folder, missing: string)
    | DecryptionFailed(cause: DecryptFailure)

  /** The contents of the uploads, keys and qrcodes folders. */
  datatype Stores = Stores(
    uploads: map<string, Bytes>,
    keys: map<string, Bytes>,
    qrcodes: map<string, Bytes>)

  datatype Outcome<R> = Outcome(stores: Stores, response: R)

  /**
    The upload handler as a function of the folders before the request.
    The uuid `fileId` and the generated `key` are inputs.
  */
  function HandleIndex(s: Stores, req: Request, fileId: string, key: Bytes, lib: Libraries)
    : (r: Outcome<IndexResponse>)
    ensures req.Get? ==> r == Outcome(s, Form)
    ensures req == Post(None) ==> r == Outcome(s, Message(NoFilePartMessage))
    ensures req.Post? && req.file.Some? && req.file.value.filename == ""
            ==> r == Outcome(s, Message(NoSelectedFileMessage))
    ensures r.response.SharePage?
            <==> req.Post? && req.file.Some? && req.file.value.filename != ""
    ensures !r.response.SharePage? ==> r.stores == s
    ensures r.response.SharePage? ==>
              var name, data := req.file.value.filename, req.file.value.data;
              && r.response == SharePage(QrPagePath(fileId), key)
              && r.stores.uploads == s.uploads[StorageName(fileId, name) := lib.encrypt(key, data)]
              && r.stores.keys == s.keys[KeyName(fileId) := key]
              && r.stores.qrcodes == s.qrcodes[QrName(fileId) := lib.qrPng(DownloadUrl(fileId, name))]
  {
    match req
    case Get => Outcome(s, Form)
    case Post(None) => Outcome(s, Message(NoFilePartMessage))
    case Post(Some(part)) =>
      if part.filename == "" then Outcome(s, Message(NoSelectedFileMessage))
      else
        var stores := Stores(
          s.uploads[StorageName(fileId, part.filename) := lib.encrypt(key, part.data)],
          s.keys[KeyName(fileId) := key],
          s.qrcodes[QrName(fileId) := lib.qrPng(DownloadUrl(fileId, part.filename))]);
        Outcome(stores, SharePage(QrPagePath(fileId), key))
  }

  /**
    The download handler as a function of the folders before the request.
    Errors come in the order of the source's statements: the key file, then
    the ciphertext, then decryption, then parsing the original name.
  */
  function HandleDownload(s: Stores, filename: string, lib: Libraries): (r: Outcome<DownloadResponse>)
    ensures r.stores.keys == s.keys && r.stores.qrcodes == s.qrcodes
    ensures !r.response.Attachment? ==> r.stores == s
    ensures r.response.FileNotFound?
            <==> KeyName(IdOf(filename)) !in s.keys || filename !in s.uploads
    ensures KeyName(IdOf(filename)) !in s.keys
            ==> r.response == FileNotFound(Keys, KeyName(IdOf(filename)))
    ensures KeyName(IdOf(filename)) in s.keys && filename !in s.uploads
            ==> r.response == FileNotFound(Uploads, filename)
    ensures r.response == DecryptionFailed(InvalidKeyOrToken)
            <==> KeyName(IdOf(filename)) in s.keys && filename in s.uploads
                 && lib.decrypt(s.keys[KeyName(IdOf(filename))], s.uploads[filename]).None?
    ensures r.response == DecryptionFailed(NoUnderscore)
            <==> KeyName(IdOf(filename)) in s.keys && filename in s.uploads
                 && lib.decrypt(s.keys[KeyName(IdOf(filename))], s.uploads[filename]).Some?
                 && OriginalNameOf(filename).None?
    ensures r.response.Attachment? ==>
              var plain := lib.decrypt(s.keys[KeyName(IdOf(filename))], s.uploads[filename]);
              && plain.Some? && OriginalNameOf(filename).Some?
              && r.response == Attachment(DecryptedName(OriginalNameOf(filename).value), plain.value)
              && r.stores.uploads == s.uploads[r.response.name := r.response.data]
  {
    var keyName := KeyName(IdOf(filename));
    if keyName !in s.keys then Outcome(s, FileNotFound(Keys, keyName))
    else if filename !in s.uploads then Outcome(s, FileNotFound(Uploads, filename))
    else match lib.decrypt(s.keys[keyName], s.uploads[filename])
      case None => Outcome(s, DecryptionFailed(InvalidKeyOrToken))
      case Some(plain) =>
        match OriginalNameOf(filename)
        case None => Outcome(s, DecryptionFailed(NoUnderscore))
        case Some(original) =>
          var name := DecryptedName(original);
          Outcome(s.(uploads := s.uploads[name := plain]), Attachment(name, plain))
  }

  /** The application with its three folders. */
  class Server {
    var uploads: map<string, Bytes>
    var keys: map<string, Bytes>
    var qrcodes: map<string, Bytes>

    /** Start-up: the folders exist, holding whatever they already held. */
    constructor (uploads0: map<string, Bytes>, keys0: map<string, Bytes>, qrcodes0: map<string, Bytes>)
      ensures Snapshot() == Stores(uploads0, keys0, qrcodes0)
    {
      uploads, keys, qrcodes := uploads0, keys0, qrcodes0;
    }

    function Snapshot(): (r: Stores)
      reads this
    {
      Stores(uploads, keys, qrcodes)
    }

    /** `index`: check the request, then write ciphertext, key and QR image in turn. */
    method Index(req: Request, fileId: string, key: Bytes, lib: Libraries) returns (resp: IndexResponse)
      modifies this
      ensures Outcome(Snapshot(), resp) == HandleIndex(old(Snapshot()), req, fileId, key, lib)
    {
      if req.Get? {
        return Form;
      }
      if req.file.None? {
        return Message(NoFilePartMessage);
      }
      var part := req.file.value;
      if part.filename == "" {
        return Message(NoSelectedFileMessage);
      }
      var original := part.filename;
      var encryptedName := StorageName(fileId, original);
      var token := lib.encrypt(key, part.data);
      uploads := uploads[encryptedName := token];
      keys := keys[KeyName(fileId) := key];
      var url := DownloadUrl(fileId, original);
      qrcodes := qrcodes[QrName(fileId) := lib.qrPng(url)];
      resp := SharePage(QrPagePath(fileId), key);
    }

    /**
      `download`: read the key, then the ciphertext, decrypt, parse the
      original name, and write the plaintext as `dec_<original>`. Only the
      uploads folder can change.
    */
    method Download(filename: string, lib: Libraries) returns (resp: DownloadResponse)
      modifies this`uploads
      ensures Outcome(Snapshot(), resp) == HandleDownload(old(Snapshot()), filename, lib)
    {
      var fileId := IdOf(filename);
      var keyName := KeyName(fileId);
      if keyName !in keys {
        return FileNotFound(Keys, keyName);
      }
      var key := keys[keyName];
      if filename !in uploads {
        return FileNotFound(Uploads, filename);
      }
      var token := uploads[filename];
      var plain := lib.decrypt(key, token);
      if plain.None? {
        return DecryptionFailed(InvalidKeyOrToken);
      }
      var original := OriginalNameOf(filename);
      if original.None? {
        return DecryptionFailed(NoUnderscore);
      }
      var decryptedName := DecryptedName(original.value);
      uploads := uploads[decryptedName := plain.value];
      resp := Attachment(decryptedName, plain.value);
    }
  }

  /**
    An upload followed by a download of the name it stored gives back the
    uploaded bytes, provided Fernet decryption inverts encryption, the key
    is one the key generator produces, and the id
    has neither `_` nor `.` (true of uuid4 text). The plaintext lands under
    `dec_<name>` exactly when the name has no `.enc` in it.
  */
  lemma UploadThenDownload(s: Stores, name: string, data: Bytes, fileId: string, key: Bytes, lib: Libraries)
    requires DecryptInvertsEncrypt(lib) && lib.validKey(key)
    requires name != ""
    requires '_' !in fileId && '.' !in fileId
    ensures var up := HandleIndex(s, Post(Some(FilePart(name, data))), fileId, key, lib);
            var down := HandleDownload(up.stores, StorageName(fileId, name), lib);
            && up.response == SharePage(QrPagePath(fileId), key)
            && down.response == Attachment(DecryptedName(Replace(name, EncExt, "")), data)
            && (down.response.name == DecryptedName(name) <==> !HasSubstring(name, EncExt))
  {
    IdOfStorageName(fileId, name);
    OriginalNameOfStorageName(fileId, name);
    OriginalNameExact(fileId, name);
    var token := lib.encrypt(key, data);
    assert lib.decrypt(key, token) == Some(data);
  }

  /**
    After an upload, the key name download computes from the stored name
    is the entry upload wrote, and it holds the uploaded key beside the
    ciphertext it encrypted.
  */
  lemma DownloadReadsUploadedKey(s: Stores, name: string, data: Bytes, fileId: string, key: Bytes, lib: Libraries)
    requires name != "" && '_' !in fileId
    ensures var up := HandleIndex(s, Post(Some(FilePart(name, data))), fileId, key, lib);
            var stored := StorageName(fileId, name);
            && KeyName(IdOf(stored)) in up.stores.keys && up.stores.keys[KeyName(IdOf(stored))] == key
            && stored in up.stores.uploads && up.stores.uploads[stored] == lib.encrypt(key, data)
  {
    IdOfStorageName(fileId, name);
  }

  /** A download of a name ending in `.enc` leaves that ciphertext as it was. */
  lemma DownloadKeepsCiphertext(s: Stores, filename: string, lib: Libraries)
    requires EndsWith(filename, EncExt) && filename in s.uploads
    ensures var r := HandleDownload(s, filename, lib);
            filename in r.stores.uploads && r.stores.uploads[filename] == s.uploads[filename]
  {
    var r := HandleDownload(s, filename, lib);
    if r.response.Attachment? {
      DecryptedNameIsNotRequested(filename, OriginalNameOf(filename).value);
    }
  }

  /**
    Without the `.enc` ending that guarantee fails: a request for `dec_a`
    reads key `dec.key` and writes its plaintext back over `dec_a` itself.
  */
  lemma DownloadCanOverwriteRequested(s: Stores, lib: Libraries, plain: Bytes)
    requires KeyName("dec") in s.keys && "dec_a" in s.uploads
    requires lib.decrypt(s.keys[KeyName("dec")], s.uploads["dec_a"]) == Some(plain)
    ensures HandleDownload(s, "dec_a", lib).response == Attachment("dec_a", plain)
    ensures HandleDownload(s, "dec_a", lib).stores.uploads["dec_a"] == plain
  {
    assert DecryptedName("a") == "dec_a";
    DecryptedNameId("a");
    DecryptedNameRecovers("a");
    assert Replace("a", EncExt, "") == "a";
  }
}
