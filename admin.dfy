/** ajax.quickprovisioner.php: the admin back end. Modelled here are the input checks of `save_device`,
    `upload_file`, `delete_asset`, `get_driver`, `import_driver` and `delete_driver`, the listing of
    `list_drivers`, and `preview_config`, a second copy of the renderer. Each action answers either with
    its result or with the message of the first check that failed. */
module Admin {
  import opened Text
  import opened VarMap
  import Html
  import Decimal
  import opened Conditional
  import opened LineKeys
  import opened Contacts
  import opened Render
  import opened Provision

  /** An action's answer: `status => true` with a value, or `status => false` with a message. */
  datatype Outcome<T> = Done(value: T) | Failed(message: string)

  // ---------------------------------------------------------------------------
  // File names of uploaded assets

  /** The length of the longest run of `[a-zA-Z0-9]` at the start of `s`. */
  function AlnumRun(s: string): (n: nat)
    ensures n <= |s|
    ensures forall i :: 0 <= i < n ==> IsAlnum(s[i])
    ensures n < |s| ==> !IsAlnum(s[n])
  {
    if s != [] && IsAlnum(s[0]) then 1 + AlnumRun(s[1..]) else 0
  }

  const ImageExtensions: set<string> := {"jpg", "jpeg", "png", "gif"}

  /** `preg_match('/^asset_[a-zA-Z0-9]+\.(jpg|jpeg|png|gif)$/i', s)`. The `i` flag makes the match
      case-insensitive, so the name is matched in lower case; as the run of letters and digits cannot
      take in the dot, it ends exactly at the dot. `$` also accepts one final newline. */
  predicate IsAssetName(s: string) {
    var b := Lower(DollarBody(s));
    |b| >= 6 && b[..6] == "asset_" &&
    var n := AlnumRun(b[6..]);
    n >= 1 && 6 + n < |b| && b[6 + n] == '.' && b[7 + n..] in ImageExtensions
  }

  /** An accepted asset name holds no slash, so the file it names lies directly in the uploads
      directory. */
  lemma {:induction false} AssetNameHasNoSlash(s: string)
    requires IsAssetName(s)
    ensures forall i :: 0 <= i < |s| ==> s[i] != '/'
  {
    var d := DollarBody(s);
    var b := Lower(d);
    var n := AlnumRun(b[6..]);
    forall i | 0 <= i < |s|
      ensures s[i] != '/'
    {
      if i < |d| {
        assert b[i] == LowerChar(d[i]);
        assert d[i] == s[i];
        if i < 6 {
          assert b[..6][i] == b[i];
        } else if i < 6 + n {
          assert b[6..][i - 6] == b[i];
        } else if i > 6 + n {
          var e := b[7 + n..];
          assert e[i - 7 - n] == b[i];
          assert e == "jpg" || e == "jpeg" || e == "png" || e == "gif";
        }
      }
    }
  }

  // ---------------------------------------------------------------------------
  // save_device (ajax.quickprovisioner.php:27-66)

  /** The fields of the submitted form the checks look at; `None` for a field that was not sent. */
  datatype DeviceForm = DeviceForm(mac: Option<string>, wallpaper: Option<string>,
                                   wallpaperMode: Option<string>, securityPin: Option<string>)

  /** The checked values that go into the database row. */
  datatype DeviceFields = DeviceFields(mac: string, wallpaper: string, wallpaperMode: string, securityPin: string)

  /** `empty($mac) || strlen($mac) < 12` refuses: the MAC as typed, not normalised. */
  predicate MacLongEnough(mac: Option<string>) {
    Truthy(mac.GetOr("")) && |mac.GetOr("")| >= 12
  }

  /** `^[0-9]{1,15}$`. */
  predicate IsPinDigits(pin: string) {
    var b := DollarBody(pin);
    1 <= |b| <= 15 && forall i :: 0 <= i < |b| ==> IsDigit(b[i])
  }

  /** The checks of `save_device`, in order. `uploads` is the set of file names in the uploads
      directory (the `realpath` and `file_exists` test). */
  function SaveDeviceCheck(form: DeviceForm, uploads: set<string>): (r: Outcome<DeviceFields>)
    ensures r.Done? ==> r.value.wallpaperMode in {"crop", "fit"}
    ensures r.Done? ==> !Truthy(r.value.securityPin) || IsPinDigits(r.value.securityPin)
    ensures r.Done? && Truthy(r.value.wallpaper) ==> IsAssetName(r.value.wallpaper) && r.value.wallpaper in uploads
  {
    if !MacLongEnough(form.mac) then Failed("Invalid MAC")
    else
      var raw := form.wallpaper.GetOr("");
      var wallpaper := if Truthy(raw) then Basename(raw) else raw;
      if Truthy(raw) && !IsAssetName(wallpaper) then Failed("Invalid wallpaper filename format")
      else if Truthy(raw) && wallpaper !in uploads then Failed("Wallpaper file does not exist or invalid path")
      else
        var mode := form.wallpaperMode.GetOr("crop");
        if mode != "crop" && mode != "fit" then Failed("Invalid wallpaper mode")
        else
          var pin := form.securityPin.GetOr("");
          if Truthy(pin) && !IsPinDigits(pin) then Failed("Invalid security PIN - must be 1-15 digits")
          else Done(DeviceFields(form.mac.value, wallpaper, mode, pin))
  }

  /** A device is saved exactly when every check passes: the MAC is long enough, a PHP-truthy
      wallpaper names an existing asset after `basename`, the mode (default `crop`) is `crop` or
      `fit`, and a PHP-truthy PIN is 1 to 15 digits. The MAC is stored as typed. */
  lemma {:induction false} SaveDeviceAccepts(form: DeviceForm, uploads: set<string>)
    ensures SaveDeviceCheck(form, uploads).Done? <==>
      && MacLongEnough(form.mac)
      && (Truthy(form.wallpaper.GetOr("")) ==>
            IsAssetName(Basename(form.wallpaper.value)) && Basename(form.wallpaper.value) in uploads)
      && form.wallpaperMode.GetOr("crop") in {"crop", "fit"}
      && (!Truthy(form.securityPin.GetOr("")) || IsPinDigits(form.securityPin.value))
    ensures SaveDeviceCheck(form, uploads).Done? ==> SaveDeviceCheck(form, uploads).value.mac == form.mac.value
    ensures !MacLongEnough(form.mac) ==> SaveDeviceCheck(form, uploads) == Failed("Invalid MAC")
  {
  }

  /** `save_device` only counts characters, so it stores MACs the provisioning endpoint will never
      accept: twelve or more letters from `g` to `z` pass here and normalise to nothing there, under
      either order of the two calls. */
  lemma {:induction false} SavedMacNotNormalised(s: string)
    requires |s| >= 12 && forall i :: 0 <= i < |s| ==> 'g' <= s[i] <= 'z'
    ensures MacLongEnough(Some(s))
    ensures ParseMacAsWritten(Some(s)) == None
    ensures ParseMac(Some(s)) == None
  {
    assert s != "0" by { assert s[0] != '0'; }
    NoUpperHex(s);
    var u := Upper(s);
    assert forall i :: 0 <= i < |u| ==> 'G' <= u[i] <= 'Z';
    NoUpperHex(u);
  }

  lemma {:induction false} NoUpperHex(s: string)
    requires forall i :: 0 <= i < |s| ==> !IsUpperHex(s[i])
    ensures KeepUpperHex(s) == []
  {
    if s != [] { NoUpperHex(s[1..]); }
  }

  /** A PIN of digits followed by one newline passes, since `$` matches before a final newline. */
  lemma {:induction false} PinWithTrailingNewline()
    ensures IsPinDigits("1234\n")
  {
    assert DollarBody("1234\n") == "1234";
  }

  // ---------------------------------------------------------------------------
  // Model names (get_driver, import_driver, delete_driver)

  /** The character class `[a-zA-Z0-9_-]`. */
  predicate IsModelChar(c: char) {
    IsAlnum(c) || c == '_' || c == '-'
  }

  /** `preg_match('/^[a-zA-Z0-9_-]+$/', s)`. */
  predicate IsModelName(s: string) {
    var b := DollarBody(s);
    |b| >= 1 && forall i :: 0 <= i < |b| ==> IsModelChar(b[i])
  }

  /** The checks of `get_driver` and `delete_driver` (ajax.quickprovisioner.php:289-295, 345-351):
      `None` when the model name is accepted, else the message. */
  function ModelCheck(model: Option<string>): (r: Option<string>)
    ensures r.None? ==> model.Some? && IsModelName(model.value)
  {
    var m := model.GetOr("");
    if !Truthy(m) then Some("No model")
    else if !IsModelName(m) then Some("Invalid model name")
    else None
  }

  /** An accepted model name holds neither a slash nor a dot, so `<templates>/<model>.json` names a
      file directly in the templates directory. */
  lemma {:induction false} ModelNameStaysInDirectory(m: string)
    requires IsModelName(m)
    ensures forall i :: 0 <= i < |m| ==> m[i] != '/' && m[i] != '.'
  {
    var b := DollarBody(m);
    forall i | 0 <= i < |m|
      ensures m[i] != '/' && m[i] != '.'
    {
      if i < |b| { assert b[i] == m[i]; }
    }
  }

  /** A model is accepted exactly when it is given, PHP-truthy and made of `[a-zA-Z0-9_-]`; the name
      `0` matches the pattern but is refused as missing. */
  lemma {:induction false} ModelCheckRule(model: Option<string>)
    ensures ModelCheck(model).None? <==> model.Some? && model.value != "0" && IsModelName(model.value)
    ensures ModelCheck(Some("0")) == Some("No model")
  {
    if model.Some? && model.value == "" {
      assert DollarBody(model.value) == "";
    }
  }

  /** The decoded `import_driver` document when it is PHP-truthy, with its `model` field. */
  datatype ImportDoc = ImportDoc(model: Option<string>)

  /** ajax.quickprovisioner.php:309-317. `data` is `None` when the JSON does not decode to a truthy
      value. */
  function ImportCheck(data: Option<ImportDoc>): (r: Option<string>)
    ensures r.None? ==> data.Some? && data.value.model.Some? && IsModelName(data.value.model.value)
  {
    if data.None? || !Truthy(data.value.model.GetOr("")) then Some("Invalid JSON or no model")
    else if !IsModelName(data.value.model.value) then Some("Invalid model name")
    else None
  }

  /** Import applies the same name rule as get and delete, after its own test for a document with a
      model. */
  lemma {:induction false} ImportSameRule(data: Option<ImportDoc>)
    ensures data.Some? && data.value.model.Some? ==>
      (ImportCheck(data).None? <==> ModelCheck(data.value.model).None?)
    ensures data.None? ==> ImportCheck(data) == Some("Invalid JSON or no model")
  {
  }

  // ---------------------------------------------------------------------------
  // upload_file (ajax.quickprovisioner.php:198-263) and delete_asset (266-272)

  /** `$_FILES['file']`: the PHP error code, the size, the MIME type `finfo` detects, whether
      `getimagesize` reads it, and the client's file name. */
  datatype UploadedFile = UploadedFile(error: int, size: int, mime: string, isImage: bool, name: string)

  const MaxUploadSize: int := 5 * 1024 * 1024
  const AllowedMimes: set<string> := {"image/jpeg", "image/png", "image/gif"}

  /** The message for a failed upload, by PHP's `UPLOAD_ERR_*` code. */
  function UploadErrorMessage(code: int): string {
    if code == 1 || code == 2 then "File too large"
    else if code == 3 then "Upload incomplete"
    else if code == 4 then "No file selected"
    else if code == 6 || code == 7 || code == 8 then "Server configuration error"
    else "Upload failed"
  }

  /** The text after the last dot of `s`, if there is a dot. */
  function AfterLastDot(s: string): (r: Option<string>)
    ensures r.Some? ==> |r.value| < |s| && s[|s| - |r.value| - 1] == '.' && r.value == s[|s| - |r.value|..]
    ensures r.Some? ==> forall i :: 0 <= i < |r.value| ==> r.value[i] != '.'
  {
    if s == [] then None
    else if s[|s| - 1] == '.' then Some([])
    else match AfterLastDot(s[..|s| - 1])
      case None => None
      case Some(e) => Some(e + [s[|s| - 1]])
  }

  /** `pathinfo($name, PATHINFO_EXTENSION)`, reading a missing extension as the empty string. */
  function Extension(name: string): string {
    AfterLastDot(Basename(name)).GetOr("")
  }

  /** The name an accepted upload is stored under; `stamp` is what `uniqid` adds after `asset_`. */
  function UploadName(stamp: string, ext: string): string {
    "asset_" + stamp + "." + Lower(ext)
  }

  /** The checks of `upload_file`, in order. `file` is `None` when no file was sent; `moved` is what
      `move_uploaded_file` reports. */
  function UploadCheck(file: Option<UploadedFile>, stamp: string, moved: bool): (r: Outcome<string>)
    ensures r.Done? ==> file.Some? && file.value.error == 0 && file.value.size <= MaxUploadSize
    ensures r.Done? ==> file.value.mime in AllowedMimes && file.value.isImage
    ensures r.Done? ==> Lower(Extension(file.value.name)) in ImageExtensions
                        && r.value == UploadName(stamp, Extension(file.value.name))
  {
    match file
    case None => Failed("Upload failed")
    case Some(f) =>
      if f.error != 0 then Failed(UploadErrorMessage(f.error))
      else if f.size > MaxUploadSize then Failed("File too large (max 5MB)")
      else if f.mime !in AllowedMimes then Failed("Invalid file type")
      else if !f.isImage then Failed("File is not a valid image")
      else
        var ext := Extension(f.name);
        if Lower(ext) !in ImageExtensions then Failed("Invalid file extension")
        else if !moved then Failed("Move failed: Check server permissions/logs")
        else Done(UploadName(stamp, ext))
  }

  /** The fixed messages for PHP's upload error codes; success (0) is not an error. */
  lemma {:induction false} UploadErrorMessages(f: UploadedFile, stamp: string, moved: bool)
    requires f.error != 0
    ensures UploadCheck(Some(f), stamp, moved) == Failed(UploadErrorMessage(f.error))
    ensures f.error in {1, 2} ==> UploadErrorMessage(f.error) == "File too large"
    ensures f.error == 3 ==> UploadErrorMessage(f.error) == "Upload incomplete"
    ensures f.error == 4 ==> UploadErrorMessage(f.error) == "No file selected"
    ensures f.error in {6, 7, 8} ==> UploadErrorMessage(f.error) == "Server configuration error"
    ensures f.error !in {1, 2, 3, 4, 6, 7, 8} ==> UploadErrorMessage(f.error) == "Upload failed"
  {
  }

  /** A file whose size is over 5 MiB is refused before its contents are looked at. */
  lemma {:induction false} OversizedUploadRefused(f: UploadedFile, stamp: string, moved: bool)
    requires f.error == 0 && f.size > MaxUploadSize
    ensures UploadCheck(Some(f), stamp, moved) == Failed("File too large (max 5MB)")
  {
  }

  /** Every stored upload name passes the asset-name check that `save_device` and `delete_asset`
      apply, as long as the stamp is letters and digits (as `uniqid`'s hex digits are). */
  lemma {:induction false} UploadNameIsAsset(stamp: string, ext: string)
    requires |stamp| >= 1 && forall i :: 0 <= i < |stamp| ==> IsAlnum(stamp[i])
    requires Lower(ext) in ImageExtensions
    ensures IsAssetName(UploadName(stamp, ext))
    ensures forall i :: 0 <= i < |UploadName(stamp, ext)| ==> UploadName(stamp, ext)[i] != '/'
  {
    var e := Lower(ext);
    var s := UploadName(stamp, ext);
    assert e == "jpg" || e == "jpeg" || e == "png" || e == "gif";
    assert s[|s| - 1] == e[|e| - 1];
    assert DollarBody(s) == s;
    LowerOfUploadName(stamp, ext);
    var ls := Lower(stamp);
    assert forall i :: 0 <= i < |ls| ==> IsAlnum(ls[i]);
    AssetNameOf(s, ls, e);
    AssetNameHasNoSlash(s);
  }

  lemma {:induction false} LowerOfUploadName(stamp: string, ext: string)
    ensures Lower(UploadName(stamp, ext)) == "asset_" + Lower(stamp) + "." + Lower(ext)
  {
    LowerIdempotent(ext);
    LowerPlain("asset_");
    LowerPlain(".");
    LowerOfPieces("asset_", stamp, ".", Lower(ext));
  }

  /** Lower-casing piece by piece, with two pieces already in lower case. */
  lemma {:induction false} LowerOfPieces(p: string, a: string, q: string, b: string)
    requires Lower(p) == p && Lower(q) == q
    ensures Lower(p + a + q + b) == p + Lower(a) + q + Lower(b)
  {
    LowerAppend(p + a + q, b);
    LowerAppend(p + a, q);
    LowerAppend(p, a);
  }

  lemma {:induction false} LowerPlain(s: string)
    requires forall i :: 0 <= i < |s| ==> !IsUpper(s[i])
    ensures Lower(s) == s
  {
  }

  /** A name that reads `asset_<letters and digits>.<image extension>` in lower case is an asset name. */
  lemma {:induction false} AssetNameOf(s: string, stem: string, e: string)
    requires DollarBody(s) == s && Lower(s) == "asset_" + stem + "." + e
    requires |stem| >= 1 && forall i :: 0 <= i < |stem| ==> IsAlnum(stem[i])
    requires e in ImageExtensions
    ensures IsAssetName(s)
  {
    var b := Lower(DollarBody(s));
    CutAround("asset_", stem, e);
    AlnumRunOf(stem, "." + e);
    assert b[6 + |stem|] == '.';
  }

  /** The pieces of `p + stem + "." + e`, read back by position. */
  lemma {:induction false} CutAround(p: string, stem: string, e: string)
    ensures var b := p + stem + "." + e;
      b[..|p|] == p && b[|p|..] == stem + ("." + e) && b[|p| + |stem|] == '.' && b[|p| + |stem| + 1..] == e
  {
    var b := p + stem + "." + e;
    assert b == p + (stem + ("." + e));
    assert (stem + ("." + e))[|stem|..] == "." + e;
  }

  lemma {:induction false} LowerAppend(a: string, b: string)
    ensures Lower(a + b) == Lower(a) + Lower(b)
  {
    var l, r := Lower(a + b), Lower(a) + Lower(b);
    forall i | 0 <= i < |l|
      ensures l[i] == r[i]
    {
      if i < |a| {
        assert (a + b)[i] == a[i] && r[i] == Lower(a)[i];
      } else {
        assert (a + b)[i] == b[i - |a|] && r[i] == Lower(b)[i - |a|];
      }
    }
    assert l == r;
  }

  lemma {:induction false} LowerIdempotent(s: string)
    ensures Lower(Lower(s)) == Lower(s)
  {
    assert |Lower(Lower(s))| == |Lower(s)|;
  }

  lemma {:induction false} AlnumRunOf(a: string, rest: string)
    requires forall i :: 0 <= i < |a| ==> IsAlnum(a[i])
    requires rest == [] || !IsAlnum(rest[0])
    ensures AlnumRun(a + rest) == |a|
  {
    if a != [] {
      assert (a + rest)[1..] == a[1..] + rest;
      AlnumRunOf(a[1..], rest);
    } else {
      assert a + rest == rest;
    }
  }

  /** The check of `delete_asset` before the path containment test: `None` when accepted. */
  function DeleteAssetCheck(filename: Option<string>): (r: Option<string>)
    ensures r.None? ==> IsAssetName(Basename(filename.GetOr("")))
  {
    if !IsAssetName(Basename(filename.GetOr(""))) then Some("Invalid filename format") else None
  }

  /** An uploaded file can be chosen as a wallpaper and deleted again: its stored name passes both
      name checks unchanged by `basename`. */
  lemma {:induction false} UploadedAssetUsable(f: UploadedFile, stamp: string, form: DeviceForm, uploads: set<string>)
    requires |stamp| >= 1 && forall i :: 0 <= i < |stamp| ==> IsAlnum(stamp[i])
    requires UploadCheck(Some(f), stamp, true).Done?
    ensures var name := UploadCheck(Some(f), stamp, true).value;
      Basename(name) == name && DeleteAssetCheck(Some(name)).None?
  {
    var name := UploadCheck(Some(f), stamp, true).value;
    UploadNameIsAsset(stamp, Extension(f.name));
    BasenamePlain(name);
  }

  // ---------------------------------------------------------------------------
  // list_drivers (ajax.quickprovisioner.php:366-376)

  /** A profile file: its path and the `display_name` its JSON holds, if any. */
  datatype DriverFile = DriverFile(path: string, displayName: Option<string>)

  datatype DriverEntry = DriverEntry(model: string, displayName: string)

  /** The entry of one profile file: `basename($file, '.json')` and `$data['display_name'] ?? $model`. */
  function EntryOf(f: DriverFile): DriverEntry {
    var model := BasenameWithout(f.path, ".json");
    DriverEntry(model, f.displayName.GetOr(model))
  }

  /** The model is the file name without `.json`; the display name defaults to it only when absent
      (an empty display name is kept). */
  lemma {:induction false} DisplayNameDefaultsToModel(f: DriverFile)
    ensures EntryOf(f).model == BasenameWithout(f.path, ".json")
    ensures f.displayName.None? ==> EntryOf(f).displayName == EntryOf(f).model
    ensures f.displayName.Some? ==> EntryOf(f).displayName == f.displayName.value
  {
  }

  /** The `foreach ($files as $file)` loop: one entry per file, in `glob` order. */
  method ListDrivers(files: seq<DriverFile>) returns (list: seq<DriverEntry>)
    ensures |list| == |files|
    ensures forall i :: 0 <= i < |files| ==> list[i] == EntryOf(files[i])
  {
    list := [];
    var i := 0;
    while i < |files|
      invariant 0 <= i <= |files| && |list| == i
      invariant forall j :: 0 <= j < i ==> list[j] == EntryOf(files[j])
    {
      var entry := EntryOf(files[i]);
      ghost var before := list;
      list := list + [entry];
      assert forall j :: 0 <= j < i ==> list[j] == before[j];
      i := i + 1;
    }
  }

  /** A profile file `<dir>/<model>.json` is listed under `<model>`. */
  lemma {:induction false} ModelOfProfilePath(dir: string, model: string)
    requires |model| >= 1 && forall i :: 0 <= i < |model| ==> model[i] != '/'
    ensures BasenameWithout(dir + "/" + model + ".json", ".json") == model
  {
    var name := model + ".json";
    var p := (dir + "/") + name;
    assert dir + "/" + model + ".json" == p;
    assert p[|p| - 1] == 'n';
    assert DropTrailingSlashes(p) == p;
    forall i | 0 <= i < |name|
      ensures name[i] != '/'
    {
      if i >= |model| { assert name[i] == ".json"[i - |model|]; }
    }
    AfterLastSlashTail(dir + "/", name);
    assert Basename(p) == name;
    assert name[|name| - 5..] == ".json";
    assert name[..|name| - 5] == model;
  }

  // ---------------------------------------------------------------------------
  // preview_config (ajax.quickprovisioner.php:101-196)

  /** A device row with its database id, an `INT` column, which the preview looks the device up by. */
  datatype Row = Row(id: nat, device: Device)

  /** White space MySQL skips before a number: the space and the controls from tab to carriage return. */
  predicate IsSqlSpace(c: char) { c == ' ' || '\t' <= c <= '\r' }

  function SkipSqlSpace(s: string): (r: string)
    ensures |r| <= |s| && r == s[|s| - |r|..]
    ensures forall i :: 0 <= i < |s| - |r| ==> IsSqlSpace(s[i])
    ensures r != [] ==> !IsSqlSpace(r[0])
  {
    if s != [] && IsSqlSpace(s[0]) then SkipSqlSpace(s[1..]) else s
  }

  /** What follows the integer part leaves the number whole: it is no fraction, or a fraction of zeros. */
  predicate WholeAfter(rest: string) {
    rest == [] || rest[0] != '.' || forall i :: 1 <= i <= Decimal.DigitRun(rest[1..]) ==> rest[i] == '0'
  }

  /** The leading digits of `u` as a number, when what follows them leaves it whole. */
  function UnsignedWhole(u: string): Option<nat> {
    var n := Decimal.DigitRun(u);
    if WholeAfter(u[n..]) then Some(Decimal.DigitsValue(u[..n])) else None
  }

  /** The number MySQL reads from the request's string when it compares it with the `INT` column `id`,
      when that number is whole. White space is skipped, then an optional sign, then the leading digits
      (none reads as 0); whatever follows them is ignored. A nonzero fraction equals no `INT`, so it
      gives `None`. */
  function SqlWholeNumber(s: string): Option<int> {
    var t := SkipSqlSpace(s);
    if t != [] && t[0] == '-' then
      match UnsignedWhole(t[1..])
      case None => None
      case Some(v) => Some(-(v as int))
    else if t != [] && t[0] == '+' then
      match UnsignedWhole(t[1..])
      case None => None
      case Some(v) => Some(v as int)
    else
      match UnsignedWhole(t)
      case None => None
      case Some(v) => Some(v as int)
  }

  /** `WHERE id=?` with the raw request string: a row matches when its id equals the number MySQL reads. */
  function FindRow(rows: seq<Row>, id: string): (r: Option<Device>)
    ensures r.Some? ==> exists i :: 0 <= i < |rows| && SqlWholeNumber(id) == Some(rows[i].id) && rows[i].device == r.value
    ensures r.None? ==> forall i :: 0 <= i < |rows| ==> SqlWholeNumber(id) != Some(rows[i].id)
  {
    if rows == [] then None
    else if SqlWholeNumber(id) == Some(rows[0].id) then Some(rows[0].device)
    else
      var r := FindRow(rows[1..], id);
      assert r.Some? ==> exists i :: 1 <= i < |rows| && SqlWholeNumber(id) == Some(rows[i].id) && rows[i].device == r.value by {
        if r.Some? {
          var j :| 0 <= j < |rows[1..]| && SqlWholeNumber(id) == Some(rows[1..][j].id) && rows[1..][j].device == r.value;
          assert rows[j + 1] == rows[1..][j];
        }
      }
      r
  }

  lemma {:induction false} SkipSqlSpaceOf(ws: string, t: string)
    requires forall i :: 0 <= i < |ws| ==> IsSqlSpace(ws[i])
    requires t == [] || !IsSqlSpace(t[0])
    ensures SkipSqlSpace(ws + t) == t
    decreases |ws|
  {
    if ws == [] {
      assert ws + t == t;
    } else {
      assert (ws + t)[1..] == ws[1..] + t;
      SkipSqlSpaceOf(ws[1..], t);
    }
  }

  /** A fraction of zeros, and text after the number that starts with no digit, keep the number whole. */
  lemma {:induction false} ZeroFractionWhole(fzeros: string, junk: string)
    requires forall i :: 0 <= i < |fzeros| ==> fzeros[i] == '0'
    requires junk == [] || !('0' <= junk[0] <= '9')
    ensures WholeAfter("." + fzeros + junk)
  {
    var rest := "." + fzeros + junk;
    assert Decimal.AllDigits(fzeros);
    assert rest[1..] == fzeros + junk;
    Decimal.DigitRunOf(fzeros, junk);
    assert forall i :: 1 <= i <= |fzeros| ==> rest[i] == fzeros[i - 1];
  }

  /** Text that starts with no white space and no sign is read by its leading digits alone. */
  lemma {:induction false} UnsignedText(t: string)
    requires t != [] && !IsSqlSpace(t[0]) && t[0] != '-' && t[0] != '+'
    ensures SqlWholeNumber(t) == if UnsignedWhole(t).Some? then Some(UnsignedWhole(t).value as int) else None
  {
    assert SkipSqlSpace(t) == t;
  }

  /** A fraction of zeros or none, then text that starts with no digit: the number stays whole. */
  lemma {:induction false} WholeTail(fraction: string, junk: string)
    requires fraction == [] || (fraction[0] == '.' && forall i :: 1 <= i < |fraction| ==> fraction[i] == '0')
    requires junk == [] || !('0' <= junk[0] <= '9')
    requires fraction == [] && junk != [] ==> junk[0] != '.'
    ensures WholeAfter(fraction + junk)
    ensures fraction + junk == [] || !('0' <= (fraction + junk)[0] <= '9')
  {
    if fraction == [] {
      assert fraction + junk == junk;
    } else {
      var fz := fraction[1..];
      assert fraction + junk == "." + fz + junk;
      ZeroFractionWhole(fz, junk);
    }
  }

  /** Digits followed by a tail that keeps the number whole read as their value. */
  lemma {:induction false} DigitsRead(zd: string, rest: string)
    requires Decimal.AllDigits(zd) && zd != []
    requires rest == [] || !('0' <= rest[0] <= '9')
    requires WholeAfter(rest)
    ensures UnsignedWhole(zd + rest) == Some(Decimal.DigitsValue(zd))
    ensures '0' <= (zd + rest)[0] <= '9'
  {
    Decimal.DigitRunOf(zd, rest);
    assert (zd + rest)[0] == zd[0];
  }

  /** White space before digits is skipped. */
  lemma {:induction false} SpacedDigits(ws: string, t: string)
    requires forall i :: 0 <= i < |ws| ==> IsSqlSpace(ws[i])
    requires t != [] && '0' <= t[0] <= '9'
    ensures SqlWholeNumber(ws + t) == if UnsignedWhole(t).Some? then Some(UnsignedWhole(t).value as int) else None
  {
    SkipSqlSpaceOf(ws, t);
    UnsignedText(t);
  }

  /** Zeros, the decimal text of `id`, a fraction of zeros and text that starts with no digit read as `id`. */
  lemma {:induction false} UnsignedRead(zeros: string, id: nat, fraction: string, junk: string)
    requires forall i :: 0 <= i < |zeros| ==> zeros[i] == '0'
    requires fraction == [] || (fraction[0] == '.' && forall i :: 1 <= i < |fraction| ==> fraction[i] == '0')
    requires junk == [] || !('0' <= junk[0] <= '9')
    requires fraction == [] && junk != [] ==> junk[0] != '.'
    ensures UnsignedWhole(zeros + Decimal.NatToString(id) + fraction + junk) == Some(id)
    ensures '0' <= (zeros + Decimal.NatToString(id) + fraction + junk)[0] <= '9'
  {
    var ds := Decimal.NatToString(id);
    assert zeros + ds + fraction + junk == (zeros + ds) + (fraction + junk);
    Decimal.LeadingZeros(zeros, ds);
    Decimal.ValueOfNatToString(id);
    WholeTail(fraction, junk);
    DigitsRead(zeros + ds, fraction + junk);
  }

  /** MySQL reads the id of a row from the canonical decimal text, and also from that text after white
      space and leading zeros, with a fraction of zeros, or with any text after it that does not start
      with a digit: `05`, ` 5`, `5.0` and `5abc` all read as 5. */
  lemma {:induction false} PaddedIdRead(ws: string, zeros: string, id: nat, fraction: string, junk: string)
    requires forall i :: 0 <= i < |ws| ==> IsSqlSpace(ws[i])
    requires forall i :: 0 <= i < |zeros| ==> zeros[i] == '0'
    requires fraction == [] || (fraction[0] == '.' && forall i :: 1 <= i < |fraction| ==> fraction[i] == '0')
    requires junk == [] || !('0' <= junk[0] <= '9')
    requires fraction == [] && junk != [] ==> junk[0] != '.'
    ensures SqlWholeNumber(ws + zeros + Decimal.NatToString(id) + fraction + junk) == Some(id)
  {
    var t := zeros + Decimal.NatToString(id) + fraction + junk;
    assert ws + zeros + Decimal.NatToString(id) + fraction + junk == ws + t;
    UnsignedRead(zeros, id, fraction, junk);
    SpacedDigits(ws, t);
  }

  /** Such an id finds its row. */
  lemma {:induction false} PaddedIdFindsRow(ws: string, zeros: string, id: nat, fraction: string, junk: string,
                                            d: Device, rest: seq<Row>)
    requires forall i :: 0 <= i < |ws| ==> IsSqlSpace(ws[i])
    requires forall i :: 0 <= i < |zeros| ==> zeros[i] == '0'
    requires fraction == [] || (fraction[0] == '.' && forall i :: 1 <= i < |fraction| ==> fraction[i] == '0')
    requires junk == [] || !('0' <= junk[0] <= '9')
    requires fraction == [] && junk != [] ==> junk[0] != '.'
    ensures FindRow([Row(id, d)] + rest, ws + zeros + Decimal.NatToString(id) + fraction + junk) == Some(d)
  {
    PaddedIdRead(ws, zeros, id, fraction, junk);
    assert ([Row(id, d)] + rest)[0] == Row(id, d);
  }

  lemma {:induction false} NonzeroFraction(f: string, k: nat)
    requires Decimal.AllDigits(f) && k < |f| && f[k] != '0'
    ensures !WholeAfter("." + f)
  {
    var rest := "." + f;
    assert rest[1..] == f + [];
    Decimal.DigitRunOf(f, []);
    assert rest[k + 1] == f[k];
  }

  /** Digits followed by a nonzero fraction read as no whole number. */
  lemma {:induction false} FractionNotWhole(ds: string, f: string, k: nat)
    requires Decimal.AllDigits(ds) && Decimal.AllDigits(f)
    requires k < |f| && f[k] != '0'
    ensures UnsignedWhole(ds + ("." + f)) == None
    ensures (ds + ("." + f))[0] == '.' || '0' <= (ds + ("." + f))[0] <= '9'
  {
    NonzeroFraction(f, k);
    Decimal.DigitRunOf(ds, "." + f);
    if ds == [] { assert ds + ("." + f) == "." + f; }
  }

  /** A string MySQL reads as no whole number finds no row. */
  lemma {:induction false} NotWholeFindsNothing(rows: seq<Row>, id: string)
    requires SqlWholeNumber(id) == None
    ensures FindRow(rows, id) == None
  {
  }

  /** A nonzero fraction is no whole number, so `5.5` finds no row at all. */
  lemma {:induction false} FractionalIdFindsNothing(ds: string, f: string, k: nat, rows: seq<Row>)
    requires Decimal.AllDigits(ds) && Decimal.AllDigits(f)
    requires k < |f| && f[k] != '0'
    ensures SqlWholeNumber(ds + "." + f) == None
    ensures FindRow(rows, ds + "." + f) == None
  {
    var t := ds + ("." + f);
    assert ds + "." + f == t;
    FractionNotWhole(ds, f, k);
    UnsignedText(t);
    NotWholeFindsNothing(rows, t);
  }

  /** A profile file that does not decode reads as a profile with nothing in it. */
  const EmptyProfile: Profile := Profile(None, None, None, [])

  /** The preview's scheme: `https` whenever `$_SERVER['HTTPS']` is set, whatever its value. */
  function PreviewScheme(https: Option<string>): string {
    if https.Some? then "https" else "http"
  }

  /** Scheme, then `<extension>:<SIP secret>@` and the host: the preview's links carry the device's
      SIP credentials. */
  function AuthOrigin(d: Device, platform: Platform, server: Server): string {
    PreviewScheme(server.https) + "://" + d.extension + ":" + platform.secret.GetOr("") + "@" + server.host
  }

  function PreviewWallpaperUrl(d: Device, platform: Platform, server: Server): string {
    if Truthy(d.wallpaper) then AuthOrigin(d, platform, server) + MediaPath + "?mac=" + NormaliseMacAsWritten(d.mac) else ""
  }

  /** The preview's built-in variables (ajax.quickprovisioner.php:127-136): those of provision.php
      without `{{lock_enable}}`. */
  function PreviewBuiltins(d: Device, platform: Platform, server: Server): VarMap {
    [("{{mac}}", NormaliseMacAsWritten(d.mac)),
     ("{{extension}}", d.extension),
     ("{{password}}", platform.secret.GetOr("")),
     ("{{display_name}}", platform.userName.GetOr(d.extension)),
     ("{{server_host}}", server.serverAddr),
     ("{{server_port}}", platform.bindPort.GetOr("5060")),
     ("{{wallpaper}}", PreviewWallpaperUrl(d, platform, server)),
     ("{{security_pin}}", d.securityPin.GetOr(""))]
  }

  /** The preview's map: custom options are HTML-escaped. */
  function PreviewVars(d: Device, platform: Platform, server: Server): VarMap {
    MergeOptions(PreviewBuiltins(d, platform, server), d.customOptions, true)
  }

  /** The rendered preview: the same passes as provision.php, with the preview's map, a profile that
      may be empty, links with credentials and `$vars['{{mac}}']` as the photo links' MAC. */
  function PreviewConfig(d: Device, profile: Option<Profile>, platform: Platform, server: Server): string {
    var p := profile.GetOr(EmptyProfile);
    var vars := PreviewVars(d, platform, server);
    Rendered(SelectTemplate(d.templateOverride, p.template), vars, d.keys, p.typeMapping, d.contacts,
             AuthOrigin(d, platform, server), Lookup(vars, "{{mac}}").GetOr(""))
  }

  /** The whole action. `profiles` maps a model name to its profile file (`None` when it does not
      decode); the name is used as stored, without `basename`. */
  function PreviewResponse(id: Option<string>, rows: seq<Row>, profiles: map<string, Option<Profile>>,
                           platform: Platform, server: Server): Outcome<string>
  {
    if !Truthy(id.GetOr("")) then Failed("No ID")
    else match FindRow(rows, id.value)
      case None => Failed("Device not found")
      case Some(d) =>
        if d.model !in profiles then Failed("Profile not found")
        else Done(PreviewConfig(d, profiles[d.model], platform, server))
  }

  /** `preview_config` as the loops it runs. */
  method Preview(id: Option<string>, rows: seq<Row>, profiles: map<string, Option<Profile>>,
                 platform: Platform, server: Server) returns (r: Outcome<string>)
    ensures r == PreviewResponse(id, rows, profiles, platform, server)
  {
    if !Truthy(id.GetOr("")) {
      return Failed("No ID");
    }
    var found := FindRow(rows, id.value);
    if found.None? {
      return Failed("Device not found");
    }
    var d := found.value;
    if d.model !in profiles {
      return Failed("Profile not found");
    }
    var p := profiles[d.model].GetOr(EmptyProfile);
    var vars := MergeCustomOptions(PreviewBuiltins(d, platform, server), d.customOptions, true);
    var template := SelectTemplate(d.templateOverride, p.template);
    var config := RenderTemplate(template, vars, d.keys, p.typeMapping, d.contacts,
                                 AuthOrigin(d, platform, server), Lookup(vars, "{{mac}}").GetOr(""));
    r := Done(config);
  }

  // ---------------------------------------------------------------------------
  // How the preview differs from provision.php

  /** A custom option reaches the preview HTML-escaped and the configuration as stored. */
  lemma {:induction false} OptionEscapedOnlyInPreview(mac: string, d: Device, platform: Platform, server: Server, k: string, v: string)
    requires DistinctNames(d.customOptions) && (k, v) in d.customOptions && v != ""
    ensures Lookup(PreviewVars(d, platform, server), Braced(k)) == Some(Html.Escape(v))
    ensures Lookup(ProvisionVars(mac, d, platform, server), Braced(k)) == Some(v)
  {
    OptionOverrides(PreviewBuiltins(d, platform, server), d.customOptions, true, k, v);
    CustomOptionOverridesBuiltin(mac, d, platform, server, k, v);
  }

  /** The preview has no `{{lock_enable}}`: unless a custom option of that name sets it, a
      `{{if lock_enable}}` section is always dropped from the preview. */
  lemma {:induction false} PreviewHasNoLockEnable(d: Device, platform: Platform, server: Server)
    requires NotOverridden(d, "lock_enable")
    ensures Lookup(PreviewVars(d, platform, server), "{{lock_enable}}") == None
    ensures !Keeps(PreviewVars(d, platform, server), "lock_enable")
  {
    var b := PreviewBuiltins(d, platform, server);
    var k := "{{lock_enable}}";
    assert k[2] == 'l' && |k| == 15;
    forall i | 0 <= i < |b|
      ensures Keys(b)[i] != k
    {
      assert |b[i].0| != 15 || b[i].0[2] != 'l';
    }
    assert Lookup(b, k) == None;
    forall o | o in d.customOptions && o.1 != ""
      ensures Braced(o.0) != k
    {
      NotBracedLock(o.0);
    }
    OptionsLeaveOthers(b, d.customOptions, true, k);
    KeepsLock(PreviewVars(d, platform, server));
  }

  /** The preview's photo links use `$vars['{{mac}}']`: the stored MAC stripped to `0-9A-F` as written
      (so lower-case hex digits are lost), unless a custom option named `mac` replaces it, in which
      case its escaped value. */
  lemma {:induction false} PreviewPhotoMac(d: Device, platform: Platform, server: Server)
    ensures NotOverridden(d, "mac") ==>
      Lookup(PreviewVars(d, platform, server), "{{mac}}") == Some(KeepUpperHex(d.mac))
    ensures forall v :: DistinctNames(d.customOptions) && ("mac", v) in d.customOptions && v != "" ==>
      Lookup(PreviewVars(d, platform, server), "{{mac}}") == Some(Html.Escape(v))
  {
    var b := PreviewBuiltins(d, platform, server);
    AsWrittenDeletesLowercase(d.mac);
    assert Lookup(b, "{{mac}}") == Some(KeepUpperHex(d.mac));
    if NotOverridden(d, "mac") {
      forall o | o in d.customOptions && o.1 != ""
        ensures Braced(o.0) != "{{mac}}"
      {
        assert Braced("mac") == "{{mac}}";
        if Braced(o.0) == Braced("mac") { BracedInjective(o.0, "mac"); }
      }
      OptionsLeaveOthers(b, d.customOptions, true, "{{mac}}");
    }
    forall v | DistinctNames(d.customOptions) && ("mac", v) in d.customOptions && v != ""
      ensures Lookup(PreviewVars(d, platform, server), "{{mac}}") == Some(Html.Escape(v))
    {
      assert Braced("mac") == "{{mac}}";
      OptionOverrides(b, d.customOptions, true, "mac", v);
    }
  }

  /** The preview's wallpaper and photo links start with `<scheme>://<extension>:<secret>@<host>`:
      they carry the device's SIP credentials. */
  lemma {:induction false} PreviewLinksCarryCredentials(d: Device, platform: Platform, server: Server, photo: string,
                                                        photoMac: string)
    requires Truthy(d.wallpaper) && Truthy(photo)
    ensures var auth := d.extension + ":" + platform.secret.GetOr("") + "@";
      var origin := PreviewScheme(server.https) + "://" + auth + server.host;
      PreviewWallpaperUrl(d, platform, server)[..|origin|] == origin &&
      PhotoUrl(AuthOrigin(d, platform, server), photo, photoMac)[..|origin|] == origin
  {
    var auth := d.extension + ":" + platform.secret.GetOr("") + "@";
    var a := AuthOrigin(d, platform, server);
    assert a == PreviewScheme(server.https) + "://" + auth + server.host;
    var rest := MediaPath + "?mac=" + NormaliseMacAsWritten(d.mac);
    assert PreviewWallpaperUrl(d, platform, server) == a + rest;
    PrefixOfConcat(a, rest);
  }

  /** The links provision.php writes carry the host alone: the media script follows it directly. */
  lemma {:induction false} ProvisionLinksWithoutCredentials(d: Device, server: Server, mac: string, photo: string)
    requires Truthy(d.wallpaper) && Truthy(photo)
    ensures var origin := Scheme(server.https) + "://" + server.host;
      WallpaperUrl(d, server, mac)[..|origin| + |MediaPath|] == origin + MediaPath &&
      PhotoUrl(origin, photo, mac)[..|origin| + |MediaPath|] == origin + MediaPath
  {
    var origin := Scheme(server.https) + "://" + server.host;
    var m := origin + MediaPath;
    var q := "?mac=" + mac;
    assert WallpaperUrl(d, server, mac) == m + q;
    PrefixOfConcat(m, q);
  }
}
