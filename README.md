# Quick Provisioner: a Dafny model of the provisioning renderer

FreePBX Quick Provisioner serves handsets their configuration files. A phone asks
`provision.php?mac=…`. The endpoint normalises the MAC and looks up the device row. A caller from
outside the local network must supply the device's provisioning credentials. The endpoint then loads
the phone model's JSON profile and renders its template against the device. Rendering runs in fixed
steps:

1. an ordered variable map (built-ins, then non-empty custom options);
2. `{{if name}}…{{/if}}` conditionals, decided by PHP truthiness;
3. one `{{line_keys_loop}}` expansion over the keys sorted by index, with leftover tokens stripped;
4. one `{{contacts_loop}}` expansion in stored order, leftover tokens kept;
5. one literal `str_replace` per variable, in map order.

The admin back end (`ajax.quickprovisioner.php`) holds a second copy of this renderer for previews,
plus the input checks for saving devices, uploading and deleting assets, and handling model files.
The admin page (`page.quickprovisioner.php`) edits a device's line keys and contacts in place, and
has a few small helpers.

The model is written module by module:

| module | file | models |
|---|---|---|
| `Text` | text.dfy | `str_replace`, search, `trim`, `basename`, `strtoupper`/`strtolower`, PHP truthiness, PCRE `$` |
| `VarMap` | varmap.dfy | PHP ordered arrays of strings (`$vars`, key fields, type mappings) |
| `Html` | html.dfy | `htmlspecialchars` and `escapeHtml`, with an inverse |
| `Decimal` | decimal.dfy | integers printed in decimal |
| `Conditional` | conditional.dfy | the `{{if}}` pass, as a left-to-right scanner with lazy groups |
| `Tokens` | tokens.dfy | the first-match loop-block search, and the `{{[a-z_]+}}` stripper |
| `LineKeys` | linekeys.dfy | the stable `usort`, and the `line_keys_loop` body as a method |
| `Contacts` | contacts.dfy | the `contacts_loop` body as a method |
| `Render` | render.dfy | the variable map, the final substitution and the whole pipeline |
| `Provision` | provision.dfy | the local-network test, the MAC, remote access, headers and the endpoint |
| `Admin` | admin.dfy | `save_device`, the uploads, the model names, `list_drivers` and `preview_config` |
| `Page` | page.dfy | the admin gate, the key and contact editors (classes), the page selector, `formatTimeAgo` |

The top-level code loops become methods with loop invariants. Each method is proved equal to a
recursive specification function. The lemmas state what those functions guarantee:
- keys come out sorted, as a permutation, and stably;
- the expansion distributes over concatenation;
- tokens are stripped inside the key loop but not inside the contact loop;
- `htmlspecialchars` is inverted;
- the variable map keeps the built-ins first and lets custom options override them.

The key and contact editors are classes whose single field is the page's global array. Their
methods update it in place.

The web server's variables, the database rows, the profile files, the PBX lookups (display name,
SIP secret, bind port) and the clock all become parameters: `Server`, `Platform`, `Device`,
`Profile`, a sequence of rows, a map of profiles, and elapsed milliseconds.

Where the system's design description and the code differ, the model follows the code:
- Custom options are inserted raw by `provision.php` but HTML-escaped by the preview.
- Only the first `line_keys_loop` block is found. Every identical copy of that exact block text is
  replaced as well, because `str_replace` is global.
- The contacts loop strips no leftover tokens. A global `{{mac}}` inside a contact item survives to
  the final pass.
- There is no generic `<name>_loop` expansion.
- `{{password}}` is the PBX device secret only. There is no per-device secret override.
- `{{index}}` in the key loop is the stored index, not the position.
- Conditionals use PHP truthiness: `"0"` and `""` are false, while `"false"` is true.
- `{{lock_enable}}` is `1` exactly when the PIN is PHP-truthy, so a PIN of `"0"` gives `0`.
- The MAC is stripped of everything but `0-9A-F` before it is upper-cased (see Findings).
- The preview is not the endpoint's renderer. It has no `{{lock_enable}}`. It uses `https` whenever
  `HTTPS` is set. It puts `<extension>:<secret>@` into its links. It looks the profile up by the
  stored model name, without `basename`.

## Model

| member | source | states |
|---|---|---|
| Provision.LocalNetworkPrefixes | provision.php:5-12 | an address is local exactly when it is `::1` or starts with `127.`, `10.`, `192.168.` or one of `172.16.` to `172.31.` |
| Provision.PrefixOfLocal | provision.php:8 | a local address other than `::1` starts with one of the listed prefixes |
| Provision.LocalWhenPrefixed | provision.php:8 | every listed prefix makes an address local |
| Provision.KeepUpperHex | provision.php:14 | what remains after `preg_replace('/[^A-F0-9]/')` holds only `0-9A-F` and is no longer than its input |
| Provision.KeepUpperHexChar | provision.php:14 | a single character is kept iff it is in `0-9A-F`, and deleted otherwise |
| Provision.KeepUpperHexAppend | provision.php:14 | the filter works character by character: filtering a concatenation is concatenating the filtered parts, so every `0-9A-F` character is kept in order |
| Provision.AsWrittenDeletesLowercase | provision.php:14 | as written, upper-casing after the strip changes nothing: the result is the stripped input, all `0-9A-F` |
| Provision.ParseMacAsWritten | provision.php:14-18 | as written, a MAC is accepted iff it is given and keeps at least 12 characters after the strip; the accepted value is exactly the stripped input |
| Provision.ShortMacRejectedAsWritten | provision.php:15-18 | as written, a request whose stripped MAC is shorter than 12 characters is refused |
| Provision.LowercaseMacRejectedAsWritten | provision.php:14-18 | as written, fewer than 12 upper-case hex digits followed by lower-case letters are refused: the lower-case letters are deleted, not upper-cased |
| Provision.LowercaseMacExample | provision.php:14-18 | as written, `mac=001565aabbcc` is refused |
| Provision.NormaliseMac | provision.php:14 | the normalised MAC holds only `0-9A-F` |
| Provision.NormaliseMacKeepsEveryHexDigit | provision.php:14 | the normalised MAC is every hex digit of the request, of either case, upper-cased, in order |
| Provision.NormaliseMacIgnoresCase | provision.php:14 | a MAC typed in lower case normalises exactly as the same MAC in upper case |
| Provision.ParseMac | provision.php:14-18 | a MAC is accepted iff it is given and normalises to at least 12 characters; an accepted MAC is all `0-9A-F` |
| Provision.ParsesAgreeWithoutLowercase | provision.php:14-18 | for a request without lower-case letters the corrected check answers exactly as the code as written |
| Provision.LowercaseMacAccepted | provision.php:14-18 | upper-case hex digits followed by lower-case `a-f`, 12 or more in all, are accepted and come out upper-cased |
| Provision.FindDevice | provision.php:20-26 | the device found has a MAC equal to the request's up to case, as the column's case-insensitive collation compares; none is found only if no row's MAC is |
| Provision.LowercaseStoredMacFound | provision.php:21 | a device saved with its MAC in lower case is found by the upper-case MAC the endpoint looks up |
| Provision.RemoteAccessRule | provision.php:29-55 | access is granted iff the client is local, or the stored user and password are both non-empty and equal the supplied Basic credentials; missing credentials give 401 before any comparison |
| Provision.AdmittedOnlyWhenAuthorised | provision.php:14-55 | a request gets past the MAC, device and access checks iff its MAC parses as written (strip, then upper-case), the device exists and the access rule grants; it then carries that MAC and device |
| Provision.ServedOnlyWhenAdmitted | provision.php:14-68 | a configuration is served only to a request admitted by the as-written checks, and a denied one gets exactly the status and message of its first failed check |
| Provision.DefaultFilenameAndType | provision.php:70-72 | the filename pattern defaults to `{mac}.cfg`, giving `<MAC>.cfg`; the content type defaults to `text/plain` |
| Provision.BuiltinLock | provision.php:92-104 | the built-in `{{lock_enable}}` is `1` iff the security PIN is PHP-truthy, else `0` |
| Provision.LockEnableFollowsPin | provision.php:92-110 | unless a custom option of that name overrides it, the map's `{{lock_enable}}` is `1` iff the PIN is truthy |
| Provision.LockSectionFollowsPin | provision.php:92-121 | a `{{if lock_enable}}` section is kept iff the PIN is truthy |
| Provision.KeepsLock | provision.php:114-121 | `{{if lock_enable}}` keeps its body iff `{{lock_enable}}` is set and PHP-truthy |
| Provision.CustomOptionOverridesBuiltin | provision.php:106-110 | a non-empty custom option replaces the built-in variable of the same name with its raw value |
| Provision.Provision | provision.php:14-171 | run statement by statement, the endpoint gives `ProvisionResponse`. A MAC that keeps fewer than 12 characters after the as-written strip is refused with 200, an unknown device with 404, and failed access with 401. A missing or undecodable profile is refused with 200. Otherwise the rendered body is served with its content type and filename |
| Render.OverrideWinsWhenTruthy | provision.php:112 | a PHP-truthy template override wins; otherwise the profile's template, else the empty string |
| Render.Braced | provision.php:108 | `{{key}}` is the key inside four braces |
| Render.BracedInjective | provision.php:108 | two option names give the same variable only if they are equal |
| VarMap.Lookup | provision.php:117 | a lookup fails iff the key is not in the map; a found value is stored under that key |
| VarMap.Put | provision.php:108 | after an assignment the key holds the new value and every other key is unchanged |
| VarMap.PutKeys | provision.php:108 | assigning an existing key keeps the key order; a new key is appended |
| VarMap.PutUnique | provision.php:108 | assignment never duplicates a key |
| VarMap.LookupLast | provision.php:94-104 | a key appended to a map without it is found with its value |
| Render.MergeCustomOptions | provision.php:106-110 | the option loop builds exactly the merged map |
| Render.OptionOverrides | provision.php:106-110 | each non-empty option's variable holds the option's value (escaped in the preview) after the merge |
| Render.OptionsLeaveOthers | provision.php:106-110 | a variable no non-empty option names keeps its built-in value |
| Render.MergeKeepsBuiltinsFirst | provision.php:94-110 | the merged map starts with the built-in keys in their order |
| Text.TrimLeft | provision.php:115 | the result is a suffix of the input that starts with no whitespace, and everything dropped was whitespace |
| Text.TrimRight | provision.php:115 | the result is a prefix of the input that ends with no whitespace, and everything dropped was whitespace |
| Conditional.IfSpanAt | provision.php:114 | a match is `{{if `, the name up to the first `}}`, and the body up to the first following `{{/if}}`; there is no match only when the text does not start with `{{if `, or when no `{{/if}}` follows any `}}` |
| Conditional.ConditionalsKeepPrefix | provision.php:114-121 | text before the first `{{if ` is copied unchanged |
| Conditional.ConditionalsWithoutIf | provision.php:114-121 | a template without `{{if ` is unchanged |
| Conditional.ConditionalsSpan | provision.php:114-121 | a span becomes its body iff the trimmed name's variable is set and truthy, else nothing, and scanning resumes after `{{/if}}` |
| Tokens.FirstBlock | provision.php:123 | the found block is the first opening tag and the first closing tag after it; none is found only if no closing tag follows any opening tag |
| Tokens.FirstBlockAtStart | provision.php:123 | a template that opens with the tag has its first block there, ending at the first closing tag |
| LineKeys.SortSorted | provision.php:127 | the sorted keys are in ascending index order |
| LineKeys.SortPermutes | provision.php:127 | the sorted keys are a permutation of the stored keys |
| LineKeys.SortStable | provision.php:127 | keys with equal index keep their stored order |
| LineKeys.FillKeyItem | provision.php:129-138 | the item statements give exactly `KeyItem`: index, mapped type, escaped fields, then the token strip |
| LineKeys.ExpandLineKeys | provision.php:126-140 | the loop builds exactly the items of the sorted keys, concatenated |
| LineKeys.KeyItemsAppend | provision.php:128-140 | the items of two key lists are the items of each, in order |
| LineKeys.ExpansionOfTwo | provision.php:127-140 | two keys are emitted lower index first, the stored first on a tie |
| LineKeys.GlobalTokenDeletedInLoop | provision.php:132-138 | a global token such as `{{mac}}` in the loop body, not `{{index}}`, `{{type}}` or a field name, is deleted |
| Html.Escape | provision.php:136 | the escaped text is no shorter and holds no `<`, `>`, `"` or `'` |
| Html.EscapeAppend | provision.php:136 | escaping distributes over concatenation |
| Html.EscapePlain | provision.php:136 | text without special characters is unchanged |
| Html.UnescapeEscape | provision.php:136 | decoding the five entities recovers the original text exactly |
| Tokens.TokenAt | provision.php:138 | a match at the start is `{{`, one or more of `[a-z_]`, `}}`; it is the only such token there, and no match means there is no token at the start |
| Tokens.StripPlain | provision.php:138 | text without `{` is unchanged by the strip |
| Tokens.StripLeadingToken | provision.php:138 | a leading token is deleted |
| Tokens.StripExposesToken | provision.php:138 | one pass is not a fixpoint: deleting an inner token can expose an outer one, which survives |
| Tokens.BlockReplacedInPlace | provision.php:141 | the block's text is replaced where it stands; text before it is kept |
| Tokens.TwoCopies | provision.php:123-141 | with two identical blocks, the first is found and both copies are replaced |
| Render.LineKeysBlockInPlace | provision.php:123-142 | the key pass puts the expansion where the block was and keeps the text before it |
| Render.IdenticalBlocksBothExpanded | provision.php:123-142 | a template with two identical key blocks gets the expansion in both places |
| Text.ReplaceFirst | provision.php:141 | `str_replace` keeps the text before the first occurrence and replaces it there |
| Contacts.ExpandContacts | provision.php:147-163 | the loop builds exactly the items of the contacts, in stored order |
| Contacts.IndexIsPositionPlusOne | provision.php:150 | `{{index}}` in a contact item is the 0-based position plus one, in decimal |
| Decimal.NatToString | provision.php:150 | a number prints as one or more digits without a leading zero |
| Decimal.ValueOfNatToString | provision.php:150 | the printed digits read back as the number |
| Decimal.NatToStringInjective | provision.php:150 | different numbers print differently |
| Contacts.PhotoUrl | provision.php:154-160 | the photo link is empty iff the photo is not truthy; otherwise it is the origin followed by the media script |
| Contacts.GlobalTokenKeptInLoop | provision.php:148-163 | a global `{{mac}}` in a contact item is left for the final pass |
| Contacts.ContactItemsAppend | provision.php:148-163 | the items of two contact lists are those of each, the second numbered on from the first |
| Render.SubstituteVars | provision.php:167-169 | the loop applies exactly one replacement per variable, in map order |
| Render.SubstituteUntouched | provision.php:167-169 | a template holding no variable name is unchanged |
| Render.SubstituteAppend | provision.php:167-169 | substituting a joined map is substituting the first part, then the second |
| Render.LaterVariableRewritesEarlierValue | provision.php:167-169 | a value holding a later variable's name is rewritten; the same names in the other order are not |
| Render.RenderTemplate | provision.php:112-169 | the rendering statements give the pipeline function: conditionals, keys, contacts, then substitution |
| Text.AfterLastSlash | provision.php:57 | the result is a suffix without `/`, preceded by `/` when shorter than the input |
| Text.BasenamePlain | provision.php:57 | `basename` leaves a name without `/` unchanged |
| Admin.SaveDeviceCheck | ajax.quickprovisioner.php:28-66 | a saved device has mode `crop` or `fit`, an empty or 1-15 digit PIN, and a wallpaper that is an existing asset name |
| Admin.SaveDeviceAccepts | ajax.quickprovisioner.php:28-66 | a device is saved iff the MAC is long enough, a truthy wallpaper is an existing asset after `basename`, the mode (default `crop`) is allowed and a truthy PIN is digits; the MAC is stored as typed |
| Admin.SavedMacNotNormalised | ajax.quickprovisioner.php:28-31 | twelve or more letters from `g` to `z` pass the save check but are refused by the endpoint's check, as written and as corrected |
| Admin.PinWithTrailingNewline | ajax.quickprovisioner.php:63 | the PIN pattern's `$` lets `1234` followed by a newline through |
| Admin.AlnumRun | ajax.quickprovisioner.php:41 | the run of `[a-zA-Z0-9]` is maximal |
| Admin.AssetNameHasNoSlash | ajax.quickprovisioner.php:41 | an accepted asset name holds no `/` |
| Admin.ModelCheck | ajax.quickprovisioner.php:289-295 | an accepted model name is given and is all `[a-zA-Z0-9_-]` |
| Admin.ModelCheckRule | ajax.quickprovisioner.php:289-295 | a name is accepted iff it is given, is not `0`, and matches the character class |
| Admin.ModelNameStaysInDirectory | ajax.quickprovisioner.php:292 | an accepted model name holds no `/` or `.` |
| Admin.ImportCheck | ajax.quickprovisioner.php:309-317 | an accepted import decodes and has a model name of the allowed class |
| Admin.ImportSameRule | ajax.quickprovisioner.php:309-317 | import accepts a model name exactly when the other actions do; a document that does not decode is refused |
| Admin.UploadCheck | ajax.quickprovisioner.php:199-263 | a stored upload had no error, is at most 5 MiB, has an allowed MIME type, is an image and has an image extension; it is stored as `asset_<stamp>.<ext>` |
| Admin.UploadErrorMessages | ajax.quickprovisioner.php:199-223 | each PHP upload error code gets its fixed message, with `Upload failed` for the rest |
| Admin.OversizedUploadRefused | ajax.quickprovisioner.php:224-227 | a file over 5 MiB is refused |
| Admin.AfterLastDot | ajax.quickprovisioner.php:242 | the extension is what follows the last dot |
| Admin.UploadNameIsAsset | ajax.quickprovisioner.php:248 | every stored upload name passes the asset-name check and holds no `/` |
| Admin.LowerOfUploadName | ajax.quickprovisioner.php:248 | lower-casing the stored name lower-cases the stamp and leaves the rest |
| Admin.DeleteAssetCheck | ajax.quickprovisioner.php:267-272 | a deletion passes the name check only for an asset name after `basename` |
| Admin.UploadedAssetUsable | ajax.quickprovisioner.php:248-272 | an uploaded file's name is unchanged by `basename` and passes the deletion check |
| Admin.ListDrivers | ajax.quickprovisioner.php:367-376 | one entry per profile file, in order, each the file's entry |
| Admin.DisplayNameDefaultsToModel | ajax.quickprovisioner.php:371-373 | the model is the file name without `.json`; the display name defaults to it |
| Admin.ModelOfProfilePath | ajax.quickprovisioner.php:371 | a profile path `<dir>/<model>.json` gives back the model |
| Text.AfterLastSlashTail | ajax.quickprovisioner.php:371 | what follows the last `/` of `<dir>/<name>` is the name |
| Admin.FindRow | ajax.quickprovisioner.php:102-105 | `WHERE id=?` on the `INT` column: a row is found only if its id equals the whole number MySQL reads from the raw request string; none is found only if no row's id does |
| Admin.PaddedIdRead | ajax.quickprovisioner.php:104 | MySQL reads an id from its decimal text also after white space and leading zeros, with a fraction of zeros, or with trailing text that starts with no digit (`05`, ` 5`, `5.0`, `5abc` all read as 5) |
| Admin.PaddedIdFindsRow | ajax.quickprovisioner.php:104-105 | such a padded id finds the row with that id |
| Admin.FractionalIdFindsNothing | ajax.quickprovisioner.php:104-105 | an id with a nonzero fraction (`5.5`) is no whole number and finds no row |
| Admin.Preview | ajax.quickprovisioner.php:101-196 | the preview gives `PreviewResponse`: `No ID` for a falsy id, `Device not found`, `Profile not found` for a stored model without a file, else the rendered preview with the MAC stripped as written |
| Admin.OptionEscapedOnlyInPreview | ajax.quickprovisioner.php:137-141 | a custom option reaches the preview map HTML-escaped and the provisioning map raw |
| Admin.PreviewHasNoLockEnable | ajax.quickprovisioner.php:127-136 | the preview has no `{{lock_enable}}` unless an option sets it, so `{{if lock_enable}}` is dropped |
| Admin.PreviewPhotoMac | ajax.quickprovisioner.php:128-185 | the preview's photo MAC is the stored MAC stripped to `0-9A-F` as written, or the escaped value of a custom option `mac` |
| Admin.PreviewLinksCarryCredentials | ajax.quickprovisioner.php:121-126 | preview wallpaper and photo links start with `<scheme>://<extension>:<secret>@<host>` |
| Admin.ProvisionLinksWithoutCredentials | provision.php:84-90 | the endpoint's wallpaper and photo links carry the host alone, directly followed by the media script |
| Page.AdminGate | page.quickprovisioner.php:2-13 | the page is served iff the client passes the same local-network test as the endpoint |
| Page.AdminGateLocalOnly | page.quickprovisioner.php:2-13 | the page opens exactly for `::1` and the listed private prefixes |
| Page.KeyEditor.constructor | page.quickprovisioner.php:474 | the editor starts with the device's stored keys |
| Page.KeyEditor.KeyForm | page.quickprovisioner.php:652-659 | the dialog's type is never empty |
| Page.KeyFormDefaults | page.quickprovisioner.php:652-659 | a missing key shows type `line` with empty value and label |
| Page.FindKey | page.quickprovisioner.php:666 | `find` gives the first key with the index, or none only if no key has it |
| Page.KeyEditor.SaveKey | page.quickprovisioner.php:661-676 | the keys become `SavedKeys`: the first key with the index is updated in place, else a new key is appended |
| Page.SaveKeyThenFind | page.quickprovisioner.php:661-676 | after saving, the key with that index has the new type, value and label |
| Page.SaveKeyKeepsOthers | page.quickprovisioner.php:661-676 | saving adds at most one key and leaves every key of another index in its place |
| Page.SaveKeyNoDuplicate | page.quickprovisioner.php:661-676 | saving never creates a second key with the same index |
| Page.KeyEditor.ClearKey | page.quickprovisioner.php:678-683 | the keys become the stored keys without those of the index |
| Page.Without | page.quickprovisioner.php:680 | filtering never lengthens the list |
| Page.ClearKeyRemovesAll | page.quickprovisioner.php:678-683 | no key of the index remains |
| Page.ClearKeyKeepsOthers | page.quickprovisioner.php:678-683 | every key of another index remains |
| Page.ClearKeyKeepsOrder | page.quickprovisioner.php:678-683 | clearing works part by part, so the kept keys keep their order |
| Page.ClearUndoesSave | page.quickprovisioner.php:661-683 | clearing an index after saving it gives what clearing alone gives |
| Page.ContactEditor.constructor | page.quickprovisioner.php:475 | the editor starts with the device's stored contacts |
| Page.ContactEditor.ContactForm | page.quickprovisioner.php:943-951 | the dialog shows the contact at the position, or empty fields |
| Page.ContactEditor.SaveContact | page.quickprovisioner.php:953-968 | the contacts become `SavedContacts`: a position inside the list is overwritten, one at or past its end appends, and a negative one leaves the saved list unchanged |
| Page.SaveContactPlacement | page.quickprovisioner.php:953-968 | a save inside the list changes only that position; a save at or past the end adds one item, numbered after the others in the contacts loop |
| Page.ContactEditor.RemoveContact | page.quickprovisioner.php:970-975 | a confirmed removal splices out one contact; an unconfirmed one changes nothing |
| Page.SpliceStart | page.quickprovisioner.php:972 | the splice start lies within the list |
| Page.Spliced | page.quickprovisioner.php:972 | a splice removes at most one element |
| Page.RemoveContactShifts | page.quickprovisioner.php:970-975 | removing position `idx` keeps the ones before, shifts later ones down by one, and removes exactly that contact |
| Page.RemoveContactOutside | page.quickprovisioner.php:972 | a negative position counts from the end; a position past the end removes nothing |
| Page.RemoveUndoesAppend | page.quickprovisioner.php:953-975 | removing a just-appended contact restores the list |
| Page.PageCountIsCeiling | page.quickprovisioner.php:588 | the page count is the ceiling of keys over ten: the pages hold every key and the last is not empty |
| Page.UpdatePageSelect | page.quickprovisioner.php:583-593 | the options are pages 1 to the page count, in order; nothing changes without a profile |
| Page.FormatTimeAgo | page.quickprovisioner.php:1150-1168 | the loop's text is that of the first unit reached, or `just now` |
| Page.TimeAgoAt | page.quickprovisioner.php:1161-1166 | the first unit whose length is reached gives `<count> <unit>[s] ago` |
| Page.WholeUnits | page.quickprovisioner.php:1162-1163 | the floor quotient is at least 1 exactly when the unit's length is reached |
| Page.JustNowUnderAMinute | page.quickprovisioner.php:1167 | the text is `just now` iff less than a minute has passed |
| Page.OneMinuteAgo | page.quickprovisioner.php:1164 | 60 to 119 seconds read `1 minute ago` (singular) |
| Page.TwoHoursAgo | page.quickprovisioner.php:1164 | 7200 to 10799 seconds read `2 hours ago` (plural) |
| Page.EscapeHtmlEntities | page.quickprovisioner.php:1170-1179 | `&`, `<`, `>`, `"`, `'` become `&amp;`, `&lt;`, `&gt;`, `&quot;`, `&#039;` |

## Left out

- JSON decoding is not modelled. Stored columns and profiles are taken as decoded. Custom option values and key fields are strings. A profile that does not decode is `None`.
- The database, the file system, `realpath` containment tests and `file_exists` are not modelled. They become a sequence of rows, a map of profiles and a set of upload names. `get_driver` and `delete_driver` are modelled only up to the name check.
- The logger, `header()` and `http_response_code` are not modelled. The response carries the status, message, content type and filename instead.
- Sessions, CSRF tokens and the `FREEPBX_IS_AUTH` guard are not modelled.
- `get_device`, `list_devices`, `delete_device` and `get_sip_secret` are not modelled: they only move rows to and from the database.
- `strlen` counts bytes and the model counts characters. They agree on ASCII input.
- `htmlspecialchars` is modelled as the five-entity map of PHP 8.1 and later (`ENT_QUOTES`). It is the same map as `escapeHtml`.
- `uniqid` is a parameter (`stamp`). The MIME sniffing, `getimagesize` and `move_uploaded_file` are booleans in `UploadedFile`.
- The clock is a parameter: `formatTimeAgo` receives the elapsed milliseconds.
- Page.UpdatePageSelect: a fractional or non-numeric `max_line_keys` is not modelled; it is `None` and gives no pages.
- The DOM code (`renderPreview`, `loadDevices`, modals), `clearContact`, `generateProvPassword` (randomness) and `formatFileSize` (floating point) are not modelled.
- media.php, install.php, uninstall.php, Quickprovisioner.class.php and test_t48g_layout.js are not part of this model.
- Tokens.StripTokens: the function's own contract only bounds the length. What it deletes and keeps is stated by StripPlain, StripLeadingToken and StripExposesToken.
- Admin.FindRow: MySQL's conversion of the request string to a number is modelled for white space, a sign, digits and a decimal fraction. Exponent notation (`5e0`) and the rounding of very long numbers to a double are not modelled.
- Provision.FindDevice: the `utf8mb4_unicode_ci` collation is modelled by ASCII case folding only. Accent folding and trailing-space padding are not modelled.
- Provision.KeepUpperHex: the function's own contract bounds only the length and the alphabet. What it keeps is pinned down by KeepUpperHexChar and KeepUpperHexAppend.
- Page.KeyEditor.KeyForm: the contract states only that the type is non-empty. The defaults are stated by KeyFormDefaults.

## Findings

| source | as written | input that shows it | evidently intended | confidence | as-written member | corrected member |
|---|---|---|---|---|---|---|
| provision.php:14 (the same expression at ajax.quickprovisioner.php:125 and :128) | `preg_replace('/[^A-F0-9]/', …)` runs before `strtoupper`, so lower-case hex digits are deleted, not upper-cased | `mac=001565aabbcc` keeps only `001565` and is refused as an invalid MAC | upper-case first, then strip, so the same MAC in either case gives `001565AABBCC` | high, not executed | Provision.LowercaseMacRejectedAsWritten | Provision.LowercaseMacAccepted |

The endpoint (`Provision.Admit`, `Provision.Provision`) and the preview (`Admin.Preview`) run the
code as written. `Provision.ParseMac` is the corrected check. `Provision.ParsesAgreeWithoutLowercase`
proves that the correction changes the answer only for requests that contain lower-case letters.
