/**
  The artifact naming scheme of the upload and download handlers: what an
  upload is stored as, where its key and QR image go, the link the QR image
  encodes, and how a download request's file name is parsed back into an id
  and an original name.
*/
module Naming {
  import opened Wrappers
  import opened Text

  const EncExt := ".enc"
  const KeyExt := ".key"
  const PngExt := ".png"
  const DecPrefix := "dec_"
  const RenderDomain := "https://qr-share-app.onrender.com"
  const QrPageFolder := "static/qrcodes/"

  /**
    The ciphertext's name in the uploads folder, `<id>_<original>.enc`: the
    id, one `_`, the uploaded name, and the `.enc` ending.
  */
  function StorageName(id: string, original: string): (r: string)
    ensures |r| == |id| + 1 + |original| + |EncExt|
    ensures r[..|id|] == id && r[|id|] == '_' && r[|id| + 1..|r| - |EncExt|] == original
    ensures EndsWith(r, EncExt)
  {
    id + "_" + original + EncExt
  }

  /** The key's name in the keys folder, `<id>.key`: the id with the `.key` ending. */
  function KeyName(id: string): (r: string)
    ensures |r| == |id| + |KeyExt| && r[..|id|] == id && EndsWith(r, KeyExt)
  {
    id + KeyExt
  }

  /** The QR image's name in the qrcodes folder, `<id>.png`: the id with the `.png` ending. */
  function QrName(id: string): (r: string)
    ensures |r| == |id| + |PngExt| && r[..|id|] == id && EndsWith(r, PngExt)
  {
    id + PngExt
  }

  /** The QR image's path as handed to the page template: its folder, then the image name. */
  function QrPagePath(id: string): (r: string)
    ensures |r| == |QrPageFolder| + |QrName(id)|
    ensures r[..|QrPageFolder|] == QrPageFolder && r[|QrPageFolder|..] == QrName(id)
  {
    QrPageFolder + QrName(id)
  }

  /** For an id without `/`, the last piece of the page's path is the name the image was saved under. */
  lemma QrPagePathNamesImage(id: string)
    requires '/' !in id
    ensures AfterLast(QrPagePath(id), '/') == QrName(id)
  {
    assert QrPagePath(id) == "static/qrcodes" + ['/'] + QrName(id);
    assert '/' !in QrName(id) by {
      assert QrName(id) == id + PngExt;
    }
    SplitAtLast("static/qrcodes", '/', QrName(id));
  }

  /**
    The link the QR image encodes, built by its own format string: the
    render domain and `/download/`, followed by the storage name.
  */
  function DownloadUrl(id: string, original: string): (r: string)
    ensures r == RenderDomain + "/download/" + StorageName(id, original)
  {
    RenderDomain + "/download/" + id + "_" + original + EncExt
  }

  /**
    The id a download recovers from the requested name: the longest prefix
    without `_`, which is followed by `_` unless it is the whole name.
  */
  function IdOf(filename: string): (r: string)
    ensures r <= filename && '_' !in r
    ensures |r| == |filename| || filename[|r|] == '_'
  {
    BeforeFirst(filename, '_')
  }

  /**
    The original name a download recovers: drop `.enc` occurrences in one
    pass, then take everything after the first `_`; `None` where the
    source raises IndexError (no `_` left).
  */
  function OriginalNameOf(filename: string): (r: Option<string>)
    ensures r.None? <==> '_' !in Replace(filename, EncExt, "")
    ensures r.Some? ==> Replace(filename, EncExt, "") == BeforeFirst(Replace(filename, EncExt, ""), '_') + ['_'] + r.value
  {
    AfterFirst(Replace(filename, EncExt, ""), '_')
  }

  /** The name the plaintext is written under in the uploads folder: `dec_`, then the original name. */
  function DecryptedName(original: string): (r: string)
    ensures |r| == |DecPrefix| + |original| && r[..|DecPrefix|] == DecPrefix && r[|DecPrefix|..] == original
  {
    DecPrefix + original
  }

  /** A download request for a plaintext's name would look for its key under the id `dec`. */
  lemma DecryptedNameId(original: string)
    ensures IdOf(DecryptedName(original)) == "dec"
  {
    assert DecryptedName(original) == "dec" + ['_'] + original;
    SplitAtFirst("dec", '_', original);
  }

  /** An id without `_` is recovered exactly from the storage name. */
  lemma IdOfStorageName(id: string, original: string)
    requires '_' !in id
    ensures IdOf(StorageName(id, original)) == id
  {
    assert StorageName(id, original) == id + ['_'] + (original + EncExt);
    SplitAtFirst(id, '_', original + EncExt);
  }

  /**
    The last `/`-separated piece of the link text is exactly the storage
    name, when neither id nor name contains `/`.
  */
  lemma DownloadUrlNamesStorage(id: string, original: string)
    requires '/' !in id && '/' !in original
    ensures AfterLast(DownloadUrl(id, original), '/') == StorageName(id, original)
  {
    var name := StorageName(id, original);
    var route := RenderDomain + "/download";
    assert '/' !in EncExt && '/' !in "_";
    assert name == id + "_" + original + EncExt;
    assert '/' !in name;
    assert route + "/" == RenderDomain + "/download/";
    assert DownloadUrl(id, original) == route + "/" + name;
    SplitAtLast(route, '/', name);
  }

  /** The trailing `.enc` an upload adds is always removed, whatever precedes it. */
  lemma {:induction false} TrailingEncRemoved(w: string)
    ensures Replace(w + EncExt, EncExt, "") == Replace(w, EncExt, "")
  {
    var s := w + EncExt;
    if |w| >= |EncExt| {
      assert s[..|EncExt|] == w[..|EncExt|];
      if w[..|EncExt|] == EncExt {
        assert s[|EncExt|..] == w[|EncExt|..] + EncExt;
        TrailingEncRemoved(w[|EncExt|..]);
      } else {
        assert s[1..] == w[1..] + EncExt;
        TrailingEncRemoved(w[1..]);
      }
    } else if |w| == 0 {
      assert s == EncExt;
      assert s[|EncExt|..] == [];
    } else {
      // a `.enc` cannot straddle: s[|w|] is '.', which ".enc" has only at index 0
      assert s[..|EncExt|][|w|] == '.' != EncExt[|w|];
      assert s[1..] == w[1..] + EncExt;
      TrailingEncRemoved(w[1..]);
      assert !HasSubstring(w, EncExt) && !HasSubstring(w[1..], EncExt);
      assert [w[0]] + w[1..] == w;
    }
  }

  /**
    For an id with no `_` and no `.`, the name download recovers is the
    uploaded name with its `.enc` occurrences dropped; underscores inside
    the name survive because only the first `_` splits.
  */
  lemma OriginalNameOfStorageName(id: string, original: string)
    requires '_' !in id && '.' !in id
    ensures OriginalNameOf(StorageName(id, original)) == Some(Replace(original, EncExt, ""))
  {
    var a := id + "_";
    assert StorageName(id, original) == a + (original + EncExt);
    ReplacePassesOver(a, original + EncExt, EncExt, "");
    TrailingEncRemoved(original);
    assert a + Replace(original, EncExt, "") == id + ['_'] + Replace(original, EncExt, "");
    SplitAtFirst(id, '_', Replace(original, EncExt, ""));
  }

  /** Download gives back the uploaded name exactly when that name has no `.enc` in it. */
  lemma OriginalNameExact(id: string, original: string)
    requires '_' !in id && '.' !in id
    ensures OriginalNameOf(StorageName(id, original)) == Some(original)
            <==> !HasSubstring(original, EncExt)
  {
    OriginalNameOfStorageName(id, original);
  }

  /**
    An inner `.enc` is lost: the original name recovered from an upload of
    `a.enc.txt` is `a.txt`, so the plaintext is written and sent as `dec_a.txt`.
  */
  lemma InnerEncLost(id: string)
    requires '_' !in id && '.' !in id
    ensures OriginalNameOf(StorageName(id, "a.enc.txt")) == Some("a.txt")
  {
    ReplaceAtMiss("a.enc.txt", EncExt, "", 0);
    assert "a.enc.txt"[1..] == ".enc.txt";
    ReplaceAtMatch(".enc.txt", EncExt, "");
    assert ".enc.txt"[4..] == ".txt";
    ReplaceAtMiss(".txt", EncExt, "", 1);
    assert ".txt"[1..] == "txt";
    assert Replace("a.enc.txt", EncExt, "") == "a.txt";
    OriginalNameOfStorageName(id, "a.enc.txt");
  }

  /**
    The pass does not remove every `.enc`: removing the one inside
    `..encenc` joins the rest into a new `.enc`, which survives: the original
    name recovered is `.enc`, so the plaintext is written and sent as `dec_.enc`.
  */
  lemma SinglePassLeavesEnc(id: string)
    requires '_' !in id && '.' !in id
    ensures OriginalNameOf(StorageName(id, "..encenc")) == Some(".enc")
  {
    ReplaceAtMiss("..encenc", EncExt, "", 1);
    assert "..encenc"[1..] == ".encenc";
    ReplaceAtMatch(".encenc", EncExt, "");
    assert ".encenc"[4..] == "enc";
    assert Replace("enc", EncExt, "") == "enc";
    assert Replace("..encenc", EncExt, "") == "." + "enc" == ".enc";
    OriginalNameOfStorageName(id, "..encenc");
  }

  /**
    Underscores inside the uploaded name survive: the original name recovered
    from an upload of `a_b` is `a_b`, so the plaintext is written and sent as `dec_a_b`.
  */
  lemma UnderscoresSurvive(id: string)
    requires '_' !in id && '.' !in id
    ensures OriginalNameOf(StorageName(id, "a_b")) == Some("a_b")
  {
    OriginalNameExact(id, "a_b");
  }

  /**
    When the requested name ends in `.enc`, the plaintext's name can never
    be that same name, so a download cannot overwrite the ciphertext it read.
  */
  lemma DecryptedNameIsNotRequested(filename: string, original: string)
    requires EndsWith(filename, EncExt)
    requires OriginalNameOf(filename) == Some(original)
    ensures DecryptedName(original) != filename
  {
    var d := DecryptedName(original);
    if |original| < |EncExt| {
      // the `.` of a trailing `.enc` would fall on a character of `dec_`
      assert d[|d| - |EncExt|..][0] == d[|original|] == DecPrefix[|original|] != '.';
      assert !EndsWith(d, EncExt);
    } else if EndsWith(original, EncExt) {
      // then parsing `d` drops that `.enc`, so `d` parses to a different name
      EndsWithHasSubstring(original, EncExt);
      DecryptedNameRecovers(original);
      assert OriginalNameOf(d) != Some(original);
    } else {
      assert d[|d| - |EncExt|..] == original[|original| - |EncExt|..];
      assert !EndsWith(d, EncExt);
    }
  }

  /** Parsing `dec_<original>` recovers `original` with its `.enc` occurrences dropped. */
  lemma DecryptedNameRecovers(original: string)
    ensures OriginalNameOf(DecryptedName(original)) == Some(Replace(original, EncExt, ""))
  {
    ReplacePassesOver("dec_", original, EncExt, "");
    assert "dec_" + Replace(original, EncExt, "") == "dec" + ['_'] + Replace(original, EncExt, "");
    SplitAtFirst("dec", '_', Replace(original, EncExt, ""));
  }
}
