/**
 * The request handlers of idle-qrcode-system/main.py, without the web
 * framework: minting an item id with its URL and QR image path (`new_qr`),
 * reading an item (`item_page`), and assembling and saving a submitted
 * form (`save`). The UUID string and the clock reading are parameters.
 */
module App {

  import opened Wrappers
  import opened Text
  import opened Database

  /** The fixed address that every QR code points at, before the item id. */
  const UrlPrefix: string := "https://你的域名.com/item/"

  const QrDir: string := "/static/qr/"
  const QrSuffix: string := ".png"
  const UploadsDir: string := "/uploads/"

  predicate IsLowerHex(c: char) { IsDigit(c) || 'a' <= c <= 'f' }

  predicate IsUpperHex(c: char) { IsDigit(c) || 'A' <= c <= 'F' }

  /** What `str(uuid.uuid4())` looks like: 36 characters, lower-case hex in groups 8-4-4-4-12. */
  predicate IsCanonicalUuid(u: string)
  {
    && |u| == 36
    && forall i :: 0 <= i < 36 ==>
         if i == 8 || i == 13 || i == 18 || i == 23 then u[i] == '-' else IsLowerHex(u[i])
  }

  /** `str(uuid)[:8].upper()`. */
  function ItemId(uuid: string): string
  {
    Upper(Take(uuid, 8))
  }

  /** The id is the upper-cased first eight characters; for a real UUID, eight upper-case hex digits. */
  lemma ItemIdShape(uuid: string)
    ensures |ItemId(uuid)| == if |uuid| < 8 then |uuid| else 8
    ensures forall i :: 0 <= i < |ItemId(uuid)| ==> ItemId(uuid)[i] == UpperChar(uuid[i])
    ensures IsCanonicalUuid(uuid) ==>
      |ItemId(uuid)| == 8 && forall i :: 0 <= i < 8 ==> IsUpperHex(ItemId(uuid)[i])
  {
    var id := ItemId(uuid);
    if IsCanonicalUuid(uuid) {
      forall i | 0 <= i < 8
        ensures IsUpperHex(id[i])
      {
        assert IsLowerHex(uuid[i]);
      }
    }
  }

  function ItemUrl(id: string): string
  {
    UrlPrefix + id
  }

  /** Reads the item id back out of a URL; None for a URL outside the prefix. */
  function UrlItemId(url: string): Option<string>
  {
    if UrlPrefix <= url then Some(url[|UrlPrefix|..]) else None
  }

  /** The URL embeds the id: it can be read back, it ends with it, and distinct ids give distinct URLs. */
  lemma ItemUrlRoundTrip(id: string, other: string)
    ensures UrlItemId(ItemUrl(id)) == Some(id)
    ensures |ItemUrl(id)| >= |id| && ItemUrl(id)[|ItemUrl(id)| - |id|..] == id
    ensures ItemUrl(id) == ItemUrl(other) ==> id == other
  {
    assert ItemUrl(id)[|UrlPrefix|..] == id;
    if ItemUrl(id) == ItemUrl(other) {
      assert ItemUrl(other)[|UrlPrefix|..] == other;
    }
  }

  /** The servable path of the QR image for `id`. */
  function QrPngPath(id: string): string
  {
    QrDir + id + QrSuffix
  }

  /** Reads the item id back out of a QR image path; None for any other path. */
  function QrPngId(path: string): Option<string>
  {
    if |path| >= |QrDir| + |QrSuffix| && QrDir <= path && path[|path| - |QrSuffix|..] == QrSuffix
    then Some(path[|QrDir|..|path| - |QrSuffix|])
    else None
  }

  lemma QrPngRoundTrip(id: string)
    ensures QrPngId(QrPngPath(id)) == Some(id)
  {
    var p := QrPngPath(id);
    assert QrDir <= p;
    assert p[|p| - |QrSuffix|..] == QrSuffix;
    assert p[|QrDir|..|p| - |QrSuffix|] == id;
  }

  /** The JSON object `new_qr` returns. */
  datatype NewQrResponse = NewQrResponse(id: string, url: string, qrPng: string)

  /** `new_qr` for the UUID string `uuid` (the image rendering itself is not modelled). */
  function NewQr(uuid: string): NewQrResponse
  {
    var id := ItemId(uuid);
    NewQrResponse(id, ItemUrl(id), QrPngPath(id))
  }

  /**
   * For a real UUID, `new_qr` returns an eight-character upper-case hex id,
   * a URL that is the fixed prefix followed by that id, and an image path
   * that names that id.
   */
  lemma NewQrShape(uuid: string)
    requires IsCanonicalUuid(uuid)
    ensures var r := NewQr(uuid);
      && |r.id| == 8 && (forall i :: 0 <= i < 8 ==> IsUpperHex(r.id[i]))
      && r.url == UrlPrefix + r.id
      && UrlItemId(r.url) == Some(r.id)
      && r.qrPng == "/static/qr/" + r.id + ".png"
      && QrPngId(r.qrPng) == Some(r.id)
  {
    var r := NewQr(uuid);
    ItemIdShape(uuid);
    ItemUrlRoundTrip(r.id, r.id);
    QrPngRoundTrip(r.id);
  }

  /** The uploaded file part of the form. Its contents are not modelled. */
  datatype Upload = Upload(filename: Option<string>)

  /** `photo and photo.filename`: an upload is present and its filename is not empty. */
  predicate HasPhoto(upload: Option<Upload>)
  {
    upload.Some? && upload.value.filename.Some? && upload.value.filename.value != ""
  }

  /** `filename.split(".")[-1].lower()`. */
  function Extension(filename: string): string
  {
    Lower(Last(Split(filename, '.')))
  }

  /**
   * The extension is the lower-cased text after the last dot: it holds no dot,
   * and when the filename has no dot at all it is the whole lower-cased name.
   */
  lemma ExtensionShape(filename: string)
    ensures '.' !in Extension(filename)
    ensures exists t :: IsAfterLastSep(t, filename, '.') && Extension(filename) == Lower(t)
    ensures '.' !in filename ==> Extension(filename) == Lower(filename)
  {
    var t := Last(Split(filename, '.'));
    LastPieceIsAfterLastSep(filename, '.');
    LowerKeeps(t, '.');
    if '.' !in filename {
      SplitNoSep(filename, '.');
    }
  }

  /** `f"{item_id}_{timestamp}.{ext}"`, the name the upload is stored under. */
  function PhotoFileName(itemId: string, timestamp: int, ext: string): string
  {
    itemId + "_" + IntToDecimal(timestamp) + "." + ext
  }

  /** `f"/uploads/{filename}"`, the reference recorded in the `photo` column. */
  function PhotoRef(itemId: string, timestamp: int, ext: string): string
  {
    UploadsDir + PhotoFileName(itemId, timestamp, ext)
  }

  /** A lower-case text without a dot, put after a dot, is the extension of the result. */
  lemma ExtensionAfterDot(head: string, ext: string)
    requires '.' !in ext && Lower(ext) == ext
    ensures Extension(head + ['.'] + ext) == ext
  {
    LastPieceAfterSep(head, ext, '.');
  }

  /** The photo reference is a head ending in the timestamp, a dot, and the extension. */
  lemma PhotoRefParts(itemId: string, timestamp: int, ext: string)
    ensures PhotoRef(itemId, timestamp, ext) == (UploadsDir + itemId + "_" + IntToDecimal(timestamp)) + ['.'] + ext
    ensures UploadsDir + itemId + "_" <= PhotoRef(itemId, timestamp, ext)
  {
    var stamp := IntToDecimal(timestamp);
    assert PhotoRef(itemId, timestamp, ext) == UploadsDir + (itemId + "_" + stamp + "." + ext);
    assert UploadsDir + (itemId + "_" + stamp + "." + ext) == (UploadsDir + itemId + "_" + stamp) + ['.'] + ext;
    assert UploadsDir + (itemId + "_" + stamp + "." + ext) == (UploadsDir + itemId + "_") + (stamp + "." + ext);
  }

  /** An extension is already lower-case and holds no dot. */
  lemma ExtensionIsNormal(filename: string)
    ensures '.' !in Extension(filename) && Lower(Extension(filename)) == Extension(filename)
  {
    ExtensionShape(filename);
    LowerIdempotent(Last(Split(filename, '.')));
  }

  /**
   * The photo reference starts with `/uploads/`, the item id and `_`, and
   * keeps the upload's extension: the extension of the reference is the
   * extension of the uploaded filename.
   */
  lemma PhotoRefShape(itemId: string, timestamp: int, filename: string)
    ensures UploadsDir + itemId + "_" <= PhotoRef(itemId, timestamp, Extension(filename))
    ensures Extension(PhotoRef(itemId, timestamp, Extension(filename))) == Extension(filename)
  {
    var ext := Extension(filename);
    PhotoRefParts(itemId, timestamp, ext);
    ExtensionIsNormal(filename);
    ExtensionAfterDot(UploadsDir + itemId + "_" + IntToDecimal(timestamp), ext);
  }

  /** A form field as FastAPI hands it over with `Form("")`: the submitted value, or "" when absent. */
  function FormValue(form: map<string, string>, key: string): string
  {
    if key in form then form[key] else ""
  }

  /** The `item` dictionary `save` assembles and hands to `save_item`. */
  function SubmittedItem(itemId: string, form: map<string, string>, upload: Option<Upload>, timestamp: int): ItemData
  {
    var photo :=
      if HasPhoto(upload) then Some(PhotoRef(itemId, timestamp, Extension(upload.value.filename.value)))
      else None;
    ItemData(itemId, FormValue(form, "name"), FormValue(form, "location"), FormValue(form, "buy_date"),
             FormValue(form, "owner"), FormValue(form, "remark"), photo)
  }

  /**
   * The assembled item carries the path id, each text field as submitted or ""
   * when absent, and a photo exactly when a named upload came with the form.
   */
  lemma SubmittedItemShape(itemId: string, form: map<string, string>, upload: Option<Upload>, timestamp: int)
    ensures var d := SubmittedItem(itemId, form, upload, timestamp);
      && d.id == itemId
      && (("name" in form ==> d.name == form["name"]) && ("name" !in form ==> d.name == ""))
      && (("location" in form ==> d.location == form["location"]) && ("location" !in form ==> d.location == ""))
      && (("buy_date" in form ==> d.buyDate == form["buy_date"]) && ("buy_date" !in form ==> d.buyDate == ""))
      && (("owner" in form ==> d.owner == form["owner"]) && ("owner" !in form ==> d.owner == ""))
      && (("remark" in form ==> d.remark == form["remark"]) && ("remark" !in form ==> d.remark == ""))
      && (d.photo.Some? <==> HasPhoto(upload))
      && (d.photo.Some? ==> UploadsDir + itemId + "_" <= d.photo.value)
  {
    if HasPhoto(upload) {
      PhotoRefShape(itemId, timestamp, upload.value.filename.value);
    }
  }

  /**
   * What the store holds for the id after a save: the submitted fields, and
   * a photo reference only if this very request carried a named upload. Any
   * earlier photo of the item is dropped, because the save replaces the row.
   */
  lemma SaveThenView(rows: map<string, Record>, itemId: string, form: map<string, string>,
                     upload: Option<Upload>, timestamp: int)
    ensures var stored := Lookup(Upsert(rows, SubmittedItem(itemId, form, upload, timestamp)), itemId);
      && stored.id == itemId
      && stored.name == FormValue(form, "name") && stored.owner == FormValue(form, "owner")
      && stored.location == FormValue(form, "location") && stored.buyDate == FormValue(form, "buy_date")
      && stored.remark == FormValue(form, "remark")
      && (!HasPhoto(upload) ==> stored.photo == "")
      && (HasPhoto(upload) ==> stored.photo == PhotoRef(itemId, timestamp, Extension(upload.value.filename.value)))
  {
    SaveThenGet(rows, SubmittedItem(itemId, form, upload, timestamp));
  }

  /**
   * Whether `open("static/uploads/" + name, "wb")` can create the file `name`:
   * it must be a single path component (the uploads directory holds no
   * subdirectories, only files this handler wrote) and hold no NUL, which
   * Python refuses in a path.
   */
  predicate IsPlainFileName(name: string)
  {
    '/' !in name && '\0' !in name
  }

  /** Whether `save` gets past writing the upload to disk, and so reaches `save_item`. */
  predicate UploadWritable(itemId: string, upload: Option<Upload>, timestamp: int)
  {
    !HasPhoto(upload)
    || IsPlainFileName(PhotoFileName(itemId, timestamp, Extension(upload.value.filename.value)))
  }

  /** A character of the extension is a character of the filename, or its lower-case form. */
  lemma ExtensionKeeps(filename: string, c: char)
    requires !IsAsciiUpper(c) && !IsAsciiLower(c)
    ensures c in Extension(filename) ==> c in filename
  {
    var t := Last(Split(filename, '.'));
    LastPieceIsAfterLastSep(filename, '.');
    LowerKeeps(t, c);
    if c in t {
      var i :| 0 <= i < |t| && t[i] == c;
      assert filename[|filename| - |t| + i] == c;
    }
  }

  /**
   * The upload is written whenever neither the item id nor the uploaded
   * filename holds a `/` or a NUL; ids minted by `new_qr` never do.
   */
  lemma UploadWritableWhenPlain(itemId: string, filename: string, timestamp: int)
    requires IsPlainFileName(itemId) && IsPlainFileName(filename)
    ensures IsPlainFileName(PhotoFileName(itemId, timestamp, Extension(filename)))
  {
    var ext := Extension(filename);
    ExtensionKeeps(filename, '/');
    ExtensionKeeps(filename, '\0');
    var stamp := IntToDecimal(timestamp);
    assert IsPlainFileName(stamp) by {
      forall i | 0 <= i < |stamp|
        ensures stamp[i] != '/' && stamp[i] != '\0'
      {
        assert IsDigit(stamp[i]) || stamp[i] == '-';
      }
    }
    var tail := "_" + stamp + "." + ext;
    assert IsPlainFileName(tail);
    assert PhotoFileName(itemId, timestamp, ext) == itemId + tail;
  }

  /**
   * An extension holding `/` or NUL always makes the write fail: the name
   * ends with the extension, so it holds that character too.
   */
  lemma UploadFailsOnBadExtension(itemId: string, filename: string, timestamp: int)
    requires filename != ""
    requires '/' in Extension(filename) || '\0' in Extension(filename)
    ensures !UploadWritable(itemId, Some(Upload(Some(filename))), timestamp)
  {
    var ext := Extension(filename);
    var name := PhotoFileName(itemId, timestamp, ext);
    assert name == (itemId + "_" + IntToDecimal(timestamp) + ".") + ext;
    var c := if '/' in ext then '/' else '\0';
    var i :| 0 <= i < |ext| && ext[i] == c;
    assert name[|name| - |ext| + i] == c;
  }

  /** The upload name `a.b/c` has extension `b/c`, so `save` fails before storing anything. */
  lemma SlashExtensionExample()
    ensures Extension("a.b/c") == "b/c"
    ensures !UploadWritable("ID", Some(Upload(Some("a.b/c"))), 5)
  {
    assert "a.b/c" == "a" + ['.'] + "b/c";
    LastPieceAfterSep("a", "b/c", '.');
    assert Lower("b/c") == "b/c";
    UploadFailsOnBadExtension("ID", "a.b/c", 5);
  }

  /** `item_page`: the record the form is pre-filled with (the template rendering is not modelled). */
  method ItemPage(db: Store, itemId: string) returns (item: Record)
    requires db.Valid() && db.tableExists
    ensures item == Lookup(db.rows, itemId)
    ensures item.id == itemId
    ensures itemId in db.rows ==> item == db.rows[itemId]
    ensures itemId !in db.rows ==> IsBlank(item)
  {
    item := db.GetItem(itemId);
  }

  /** The answer of the save handler: `{"status": ...}`, or a server error when the handler raises. */
  datatype SaveResponse = Status(status: string) | ServerError

  /**
   * `save`: builds the item from the form; when a named upload is present it
   * writes the file and adds the photo reference; then it writes the whole
   * row. If the file cannot be created the handler raises before `save_item`,
   * so the table is unchanged. `timestamp` is `int(datetime.now().timestamp())`.
   */
  method Save(db: Store, itemId: string, form: map<string, string>, upload: Option<Upload>, timestamp: int)
    returns (response: SaveResponse)
    requires db.Valid() && db.tableExists
    modifies db
    ensures db.Valid() && db.tableExists
    ensures UploadWritable(itemId, upload, timestamp) ==>
      db.rows == Upsert(old(db.rows), SubmittedItem(itemId, form, upload, timestamp))
      && response == Status("success")
    ensures !UploadWritable(itemId, upload, timestamp) ==>
      db.rows == old(db.rows) && response == ServerError
  {
    var item := ItemData(itemId, FormValue(form, "name"), FormValue(form, "location"),
                         FormValue(form, "buy_date"), FormValue(form, "owner"),
                         FormValue(form, "remark"), None);
    if upload.Some? && upload.value.filename.Some? && upload.value.filename.value != "" {
      var ext := Extension(upload.value.filename.value);
      var filename := PhotoFileName(itemId, timestamp, ext);
      if !IsPlainFileName(filename) {
        // open() raises: nothing is stored
        return ServerError;
      }
      item := item.(photo := Some(UploadsDir + filename));
    }
    db.SaveItem(item);
    response := Status("success");
  }

  /** The id minted from the UUID `ab12cd34-5678-4abc-9def-0123456789ab`. */
  lemma MintedIdExample()
    ensures ItemId("ab12cd34-5678-4abc-9def-0123456789ab") == "AB12CD34"
  {
    var head := Take("ab12cd34-5678-4abc-9def-0123456789ab", 8);
    assert head == "ab12cd34";
    var id := Upper(head);
    assert UpperChar('a') == 'A' && UpperChar('b') == 'B' && UpperChar('c') == 'C' && UpperChar('d') == 'D';
    assert UpperChar('1') == '1' && UpperChar('2') == '2' && UpperChar('3') == '3' && UpperChar('4') == '4';
    assert forall i :: 0 <= i < 8 ==> id[i] == "AB12CD34"[i];
  }

  /**
   * The end-to-end walk through the service: start on a fresh database, mint
   * a code, open its page (all fields empty), submit name and owner with no
   * photo, and open the page again.
   */
  method Walkthrough() returns (id: string, url: string, before: Record, after: Record)
    ensures id == "AB12CD34" && url == UrlPrefix + "AB12CD34"
    ensures before == Record("AB12CD34", "", "", "", "", "", "")
    ensures after == Record("AB12CD34", "Drill", "", "", "Alice", "", "")
  {
    var db := new Store();
    db.InitDb();
    MintedIdExample();
    var code := NewQr("ab12cd34-5678-4abc-9def-0123456789ab");
    id, url := code.id, code.url;
    before := ItemPage(db, id);
    var response := Save(db, id, map["name" := "Drill", "owner" := "Alice"], None, 1700000000);
    assert response == Status("success");
    after := ItemPage(db, id);
  }
}
