# idle-qrcode-system, modelled in Dafny

The system is a small item-tracking web service. An administrator mints QR
codes. Each code holds a short item id and a URL with that id. Scanning a
code opens a form about the physical item: name, location, purchase date,
owner, remark and an optional photo. Submitting the form stores one row per
id.

The model has four modules.

- `Database` (`database.py`) models the single `items` table as a class
  `Store`. The class has a `rows: map<string, Record>` field and a
  `tableExists` flag. A primary key with `INSERT OR REPLACE` behaves exactly
  like a map update, and `SELECT ... WHERE id = ?` behaves exactly like a map
  lookup. The pure functions `Lookup` and `Upsert` state what `get_item` and
  `save_item` do. The lemmas about them state the store's promises:
  - a read never fails, and an unknown id reads as a blank record;
  - a saved row reads back unchanged;
  - a second save replaces the first instead of merging with it;
  - a save leaves every other row alone.
- `App` (`main.py`) models the request handlers without the web framework:
  - the item id, the URL and the QR image path that `new_qr` builds;
  - the record that `save` assembles from form fields and an optional upload,
    including the rule for the photo file's extension and name;
  - `item_page` as a call to `get_item`.

  The UUID string and the clock reading are parameters. `Save` is a method
  that updates the `Store`, and `Walkthrough` runs a complete mint, view,
  save and view sequence.
- `Text` holds the Python string operations the handlers rely on:
  `str.upper`, `str.lower`, the slice `[:8]`, `str.split` with `[-1]`, and
  the decimal formatting of an `int` in an f-string. Each has a partner:
  split and join are inverses, and integer formatting has a parser.
- `Wrappers` holds an `Option` type, for a dictionary key that may be absent
  and a value that may be `None`.

The URL prefix is the placeholder address written into `main.py:29`
(`https://你的域名.com/item/`). It is not a configurable base address, so a
minted id `AB12CD34` gives `https://你的域名.com/item/AB12CD34`. `init_db`
runs once when the service starts (`main.py:18`). Reading or saving needs the
table to exist, because SQLite would otherwise raise "no such table".

## Model

| member | source | states |
|---|---|---|
| `Database.Store.constructor` | idle-qrcode-system/database.py:4-8 | a new database file has no `items` table and no rows |
| `Database.Store.InitDb` | idle-qrcode-system/database.py:6-21 | after `init_db` the table exists; the rows are exactly what they were before, so calling it again changes nothing (idempotent) |
| `Database.Store.GetItem` | idle-qrcode-system/database.py:23-35 | never fails; the result is `Lookup(rows, id)`, so every lemma about `Lookup` applies to it; it always has the requested id; a stored id gives exactly the stored row; an unknown id gives all six other fields empty; it changes nothing (no modifies clause), so two calls in a row return equal records |
| `Database.Store.SaveItem` | idle-qrcode-system/database.py:37-47 | the new table contents are the old ones with the row under `d.id` inserted or wholly replaced by `d`'s fields, photo "" when `d` has none; every row stays under its own id |
| `Database.RowOfColumns` | idle-qrcode-system/database.py:41-45 | the row written has each submitted field in its column (id, name, location, buy_date, owner, remark), and photo is `d["photo"]` when that key is present and "" otherwise |
| `Database.LookupId` | idle-qrcode-system/database.py:23-35 | when every row is stored under its own id, a read always answers with a record for the requested id |
| `Database.LookupMissing` | idle-qrcode-system/database.py:34-35 | an id with no row reads as that id with name, location, buy_date, owner, remark and photo all "" |
| `Database.LookupStored` | idle-qrcode-system/database.py:26-33 | a stored id reads back exactly the stored row, field for field in column order |
| `Database.SaveThenGet` | idle-qrcode-system/database.py:40-45 | round trip: reading `d.id` after saving `d` returns `d`'s fields, with photo equal to `d`'s photo or "" when it has none |
| `Database.SecondSaveReplaces` | idle-qrcode-system/database.py:40-45 | after two saves to one id only the second save's values can be read; the table equals the one from the second save alone; a second save without a photo leaves the photo "" |
| `Database.SaveFrame` | idle-qrcode-system/database.py:40-45 | a save adds at most the key `d.id`, leaves every other id reading as before, grows the table by at most one row, and does not grow it when the id was already stored |
| `Database.SaveKeepsKeysMatch` | idle-qrcode-system/database.py:11 | the primary-key invariant (each row stored under its own id) survives every save |
| `Text.Upper` | idle-qrcode-system/main.py:28 | `upper()` keeps the length, maps each character on its own, and leaves no lower-case letter |
| `Text.Lower` | idle-qrcode-system/main.py:62 | `lower()` keeps the length, maps each character on its own, and leaves no upper-case letter |
| `Text.LowerIdempotent` | idle-qrcode-system/main.py:62 | lower-casing an already lower-cased string changes nothing |
| `Text.LowerKeeps` | idle-qrcode-system/main.py:62 | a non-letter such as `.` occurs in the lower-cased string exactly when it occurs in the original |
| `Text.Take` | idle-qrcode-system/main.py:28 | the slice `[:n]` is a prefix of the string, of length n, or the whole string when it is shorter |
| `Text.Split` | idle-qrcode-system/main.py:62 | `split(sep)` returns at least one piece, no piece holds the separator, and joining the pieces with the separator gives back the string |
| `Text.SplitNoSep` | idle-qrcode-system/main.py:62 | a string without the separator splits into itself alone |
| `Text.SplitPrefix` | idle-qrcode-system/main.py:62 | splitting `a + sep + b`, where `a` has no separator, gives `a` followed by the pieces of `b` |
| `Text.SplitJoin` | idle-qrcode-system/main.py:62 | inverse direction: splitting separator-free pieces joined by the separator gives the pieces back |
| `Text.LastPieceIsAfterLastSep` | idle-qrcode-system/main.py:62 | `split(sep)[-1]` is a suffix of the string with no separator in it, and it is either the whole string or directly preceded by a separator |
| `Text.AfterLastSepUnique` | idle-qrcode-system/main.py:62 | only one string meets those three conditions, so they define "the text after the last separator" |
| `Text.LastPieceAfterSep` | idle-qrcode-system/main.py:63-67 | the last piece of `a + sep + b`, where `b` has no separator, is `b` |
| `Text.NatToDecimal` | idle-qrcode-system/main.py:63 | a non-negative int formats as one or more decimal digits with no leading zero |
| `Text.DecimalRoundTrip` | idle-qrcode-system/main.py:63 | the digits of n read back as n |
| `Text.IntToDecimal` | idle-qrcode-system/main.py:63 | an int formats as a non-empty string with no `.` or `_`, starting with `-` exactly when it is negative |
| `Text.IntToDecimalRoundTrip` | idle-qrcode-system/main.py:63 | parsing the formatted int gives back the int |
| `App.ItemIdShape` | idle-qrcode-system/main.py:28 | the item id is the first eight characters of the UUID string, each upper-cased; for a canonical UUID it has length 8 and holds only 0-9 and A-F |
| `App.ItemUrlRoundTrip` | idle-qrcode-system/main.py:29 | the URL is the fixed prefix followed by the id; the id can be read back from the URL, the URL ends with the id, and distinct ids give distinct URLs |
| `App.QrPngRoundTrip` | idle-qrcode-system/main.py:38 | the id can be read back from the image path `/static/qr/<id>.png` |
| `App.NewQrShape` | idle-qrcode-system/main.py:27-39 | for a canonical UUID, `new_qr` returns an 8-character upper-case hex id, `url == prefix + id` (ending with the id), and `qr_png == "/static/qr/" + id + ".png"` |
| `App.ExtensionShape` | idle-qrcode-system/main.py:62 | the extension is the lower-cased text after the last `.` of the filename; it holds no `.`; for a filename without `.` it is the whole lower-cased name |
| `App.PhotoRefShape` | idle-qrcode-system/main.py:63-67 | the photo reference (`"/uploads/" + item_id + "_" + timestamp + "." + ext`) starts with `/uploads/`, the item id and `_`, and its own extension is the extension of the uploaded filename |
| `App.ExtensionAfterDot` | idle-qrcode-system/main.py:62-63 | a lower-case text with no `.`, written after a `.`, is exactly the extension `split(".")[-1].lower()` reads back |
| `App.SubmittedItemShape` | idle-qrcode-system/main.py:48-67 | the assembled item has the path id; each of name, location, buy_date, owner and remark is the submitted value, or "" when absent; it has a photo exactly when an upload with a non-empty filename came with the form, and that photo starts with `/uploads/<id>_` |
| `App.SaveThenView` | idle-qrcode-system/main.py:58-69 | after a save, the stored record for the id holds the submitted fields; its photo is "" unless this request carried a named upload, so an earlier photo is not kept |
| `App.ItemPage` | idle-qrcode-system/main.py:42-45 | the item page is filled from `get_item`: the record is `Lookup` of the path id, has the requested id, and is the stored row or a blank record |
| `App.Save` | idle-qrcode-system/main.py:48-70 | when the upload's file can be created (no upload, or a file name with no `/` and no NUL), the new table is the old one upserted with the assembled item and the answer is `{"status": "success"}`; otherwise `open` raises before `save_item`, the table is unchanged and the answer is a server error |
| `App.ExtensionKeeps` | idle-qrcode-system/main.py:62 | a non-letter character such as `/` or NUL occurs in the extension only if it occurs in the uploaded filename |
| `App.UploadWritableWhenPlain` | idle-qrcode-system/main.py:63-65 | when neither the item id nor the uploaded filename holds `/` or NUL, the name `id_timestamp.ext` is a plain file name, so the upload is written and the save goes through |
| `App.UploadFailsOnBadExtension` | idle-qrcode-system/main.py:62-65 | an extension holding `/` or NUL always makes the file name unusable, so `save` raises and stores nothing |
| `App.SlashExtensionExample` | idle-qrcode-system/main.py:62-65 | the filename `a.b/c` has extension `b/c`, and saving it for id `ID` fails before anything is stored |
| `App.MintedIdExample` | idle-qrcode-system/main.py:28 | the UUID `ab12cd34-5678-4abc-9def-0123456789ab` mints the id `AB12CD34` |
| `App.Walkthrough` | idle-qrcode-system/main.py:27-70 | on a fresh database, minting from a UUID starting `ab12cd34` gives id `AB12CD34` and URL prefix + `AB12CD34`; the page first shows a blank record; after submitting name "Drill" and owner "Alice" without a photo the answer is success and the page shows `AB12CD34, Drill, "", "", Alice, "", ""` |

## Left out

- FastAPI routing, the static mounts, reading the admin page and rendering the Jinja template (`main.py:10-13, 21-23, 42-45`) are not modelled. `item_page` is modelled only as its call to `get_item`.
- QR image rendering and saving through `segno` (`main.py:32-33`) are not modelled. The model keeps only the returned path string.
- The bytes of the upload and their copy to disk (`main.py:64-66`), and the directory creation (`main.py:16-17`), are file I/O and are not modelled. An `Upload` carries only its optional filename.
- `download_all` and its zip archive (`main.py:73-76`) are filesystem I/O and are not modelled.
- The UUID and the clock are parameters. The model does not claim that ids are unique, because that is only probabilistic. `int(datetime.now().timestamp())` is taken as the already truncated integer, so the float reading is not modelled.
- SQLite connections, commits and storage failures (`database.py:7-8, 20-21, 24-28, 38-47`) are replaced by the map. Storage errors are not modelled. Reading or saving before `init_db` (an SQLite "no such table" error) is excluded by the `tableExists` precondition, because the service always runs `init_db` at start-up.
- Concurrent saves to one id (last write wins) are not modelled. The model is sequential.
- Text.Upper: maps only ASCII `a`-`z`. Python's `str.upper` applies full Unicode case mapping, which can change the length (`"ß".upper() == "SS"`). For a canonical UUID string the two agree.
- Text.Lower: maps only ASCII `A`-`Z`. Python's `str.lower` applies full Unicode case mapping (`"İ".lower()` has two characters). The model therefore does not capture extensions with non-ASCII upper-case letters.
- App.Save: models only the write failures that the file name alone causes (a `/` or a NUL in `item_id_timestamp.ext`). A name longer than the file system allows, a full disk, missing permissions or a failing copy also make `save` raise before `save_item`; the model answers success for those.
