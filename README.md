# Upload File Type Settings plugin: the extension-to-MIME merge engine

The WordPress plugin "Upload File Type Settings" lets administrators allow
extra file types for upload. Its class `UnrestrictedUploadsPlugin` builds two
maps from the plugin's settings:
- `$mime_types`, from file extension to MIME type;
- `$disallowed_mime_types`, the extensions that may never be uploaded.

While building them it records every problem on a warning list or an error
list. Through the `upload_mimes` filter it then extends WordPress's own
allow-list with the map and strips the disallowed extensions from it.

This project models that engine in four modules.

- `PhpStrings` (php_strings.dfy) writes out the PHP built-ins the engine
  relies on:
  - `trim` with its default character set;
  - `empty` on a string, which holds for `""` and for `"0"`;
  - `explode` on a one-character separator, and `implode` as its inverse.
- `MimeMerge` (mime_merge.dfy) states what each routine computes, as
  functions on values:
  - `FileExtList` for `parse_file_ext_list`;
  - `Listing` for `parse_mime_type_listing`;
  - `InitMimeTypes` for `init_mime_types`;
  - `ExtendedMimeTypes` for `_extend_mime_types`;
  - the exact diagnostic strings.
- `UploadSettingsPlugin` (plugin.dfy) is the class itself. It has the five
  fields. Its methods run the source's `foreach` loops over `seq`, `map` and
  `set` values. Each parsing method and the two entry points are proved to
  compute the matching `MimeMerge` function; `RemoveKeys` is proved to
  compute the map difference `m - disallowed.Keys`.
- `MergeProperties` (merge_properties.dfy) proves what those functions
  promise: which keys end up mapped to what, how many of each diagnostic land
  on which list, the precedence of the five sources, and the filter's rules.

PHP arrays used as maps become Dafny `map<string, string>`. The
suppression array `$overwritable_file_exts`, whose values are all `true`,
becomes a `set<string>`. The by-reference map and warning list of the two
parsing routines are threaded through a `Merged` value. The routines take
that value and return the updated one.

Four details of the code that the model keeps:
- `parse_file_ext_list` puts its empty-token and leading-dot diagnostics on
  the warning list.
- The "Don't warn about" diagnostics go to the error list, with the prefix
  `Warning: `.
- The disallowed map stores the string `"false"`.
- No key is lower-cased.

## Model

| member | source | states |
|---|---|---|
| PhpStrings.Trim | src/upload-settings-plugin.php:180 | the trimmed string is no longer than the input and neither starts nor ends with a trim character |
| PhpStrings.TrimIsSlice | src/upload-settings-plugin.php:180 | the trimmed string is a slice `s[i..j]` of the input, and every character before `i` and from `j` on is a trim character |
| PhpStrings.TrimIdempotent | src/upload-settings-plugin.php:189 | trimming an already trimmed token changes nothing |
| PhpStrings.Explode | src/upload-settings-plugin.php:186 | `explode` returns one piece more than there are separators, and no piece holds the separator |
| PhpStrings.JoinExplode | src/upload-settings-plugin.php:186 | joining the pieces of `explode` with the separator gives back the input |
| PhpStrings.ExplodeJoin | src/upload-settings-plugin.php:226 | exploding a join of separator-free pieces gives back those pieces |
| MimeMerge.AddExts | src/upload-settings-plugin.php:187-212 | the extension loop never touches the error list |
| UploadSettingsPlugin.UnrestrictedUploadsPlugin.ParseFileExtList | src/upload-settings-plugin.php:178-213 | the loop computes `FileExtList`; a list that is empty once trimmed leaves map and warnings as they were; the error list is untouched |
| UploadSettingsPlugin.UnrestrictedUploadsPlugin.ParseMimeTypeListing | src/upload-settings-plugin.php:215-243 | the loop computes `Listing`; the error list grows by exactly one entry per malformed line |
| UploadSettingsPlugin.UnrestrictedUploadsPlugin.ParseOverwritable | src/upload-settings-plugin.php:96-118 | the "Don't warn about" loop computes `AddSuppressedAll` over the setting's tokens |
| UploadSettingsPlugin.UnrestrictedUploadsPlugin.RemoveKeys | src/upload-settings-plugin.php:172-175 | the `unset` loop leaves the map without any key of the disallowed map and otherwise unchanged |
| UploadSettingsPlugin.UnrestrictedUploadsPlugin.RunInitMimeTypes | src/upload-settings-plugin.php:87-176 | the five fields end as `InitMimeTypes` of their old values; no key is both allowed and disallowed |
| UploadSettingsPlugin.UnrestrictedUploadsPlugin.ExtendMimeTypes | src/upload-settings-plugin.php:65-85 | the filter returns `ExtendedMimeTypes` of the host map and the two fields |
| UploadSettingsPlugin.UnrestrictedUploadsPlugin.constructor | src/upload-settings-plugin.php:25-51 | on a back-end page the fields are `init_mime_types` applied to empty fields; elsewhere they stay empty |
| MergeProperties.WarningsDistinct | src/upload-settings-plugin.php:192-207 | the empty-token, leading-dot and overwrite warnings are three different strings |
| MergeProperties.AddExtsMimes | src/upload-settings-plugin.php:186-212 | after the loop every non-empty token's extension maps to the given type and every other key keeps its value |
| MergeProperties.TokenWarningsKinds | src/upload-settings-plugin.php:189-209 | one token adds one empty-token warning if it is empty, one leading-dot warning if it is dotted, and otherwise only overwrite warnings |
| MergeProperties.AddExtsWarnings | src/upload-settings-plugin.php:186-209 | the warnings already present stay in front; exactly one empty-token warning per empty token and one leading-dot warning per dotted token follow; anything else appended is an overwrite warning |
| MergeProperties.OverwriteStepWarnings | src/upload-settings-plugin.php:189-209 | one more token adds its empty-token or leading-dot warning, then an overwrite warning exactly when its extension is new to the list, not suppressed, and had a different non-empty type in the original map |
| MergeProperties.AddExtsOverwriteCount | src/upload-settings-plugin.php:186-212 | the loop appends exactly one warning per empty token, one per dotted token and one per overwritten extension |
| MergeProperties.AddExtsOverwriteComplete | src/upload-settings-plugin.php:201-211 | every overwritten extension gets its warning, naming the type it had before the list |
| MergeProperties.AddExtsOverwriteSound | src/upload-settings-plugin.php:201-211 | every appended overwrite warning names an overwritten extension and its type before the list |
| MergeProperties.AddExtsSilent | src/upload-settings-plugin.php:201-211 | when every listed extension already has the given type, the loop changes no key and adds no overwrite warning |
| MergeProperties.FileExtListBlank | src/upload-settings-plugin.php:180-184 | a list that is empty after trimming, `"0"` included, changes nothing |
| MergeProperties.FileExtListEffect | src/upload-settings-plugin.php:178-213 | `parse_file_ext_list` in full: each named extension maps to the type, the last write wins, other keys are unchanged, the error list is untouched, the earlier warnings stay in front, and the diagnostics are counted as above; the overwrite warnings number exactly the listed extensions that are not suppressed and whose old type is non-empty and different, and each such extension's warning, naming its old type, is among them |
| MergeProperties.FileExtListSingle | src/upload-settings-plugin.php:201-211 | for a list of one plain extension, the map gets exactly that entry and an overwrite warning is added if and only if the extension is not suppressed, the existing value is non-empty and it differs from the new type |
| MergeProperties.FileExtListReapply | src/upload-settings-plugin.php:201-211 | applying the same list and type twice leaves the map as the first pass left it and adds no overwrite warning |
| MergeProperties.FileExtListEmptyTokens | src/upload-settings-plugin.php:186-194 | `",a,"` gives two empty-token warnings, no error and the single key `a` |
| MergeProperties.FileExtListLeadingDot | src/upload-settings-plugin.php:189-199 | `".txt"` gives the key `txt` and one leading-dot warning; `"."` passes the empty check first, so its key is the empty string |
| MergeProperties.ListingLineRejects | src/upload-settings-plugin.php:219-231 | blank and `#` lines change nothing; a line without exactly one colon adds exactly one "Invalid" error and nothing else |
| MergeProperties.ListingLineEntry | src/upload-settings-plugin.php:226-241 | on a line `exts:type`, an empty trimmed type adds exactly one "No mime type" error; otherwise the extensions are merged with the trimmed type |
| MergeProperties.ListingLineEffect | src/upload-settings-plugin.php:217-242 | one line adds its entries to the map, adds at most one error when malformed, and keeps earlier errors and warnings in front |
| MergeProperties.ListingEffect | src/upload-settings-plugin.php:215-243 | the map receives the entries of the well-formed lines, later lines winning; the error list grows by one per malformed line, behind the earlier errors; the earlier warnings stay in front |
| MergeProperties.ListingExample | src/upload-settings-plugin.php:233-241 | the line `php,phtml : application/x-httpd-php` maps both extensions to that type and reports no error |
| MergeProperties.ListingInvalidExamples | src/upload-settings-plugin.php:226-231 | `badline` and `a:b:c` each add exactly one "Invalid" error and nothing else |
| MergeProperties.SuppressionErrorsDistinct | src/upload-settings-plugin.php:107-112 | the two "Don't warn about" diagnostics are different strings |
| MergeProperties.AddSuppressedErrors | src/upload-settings-plugin.php:104-116 | one suppression token adds one error if empty, one if dotted, and none otherwise |
| MergeProperties.SuppressionExts | src/upload-settings-plugin.php:102-117 | the suppression set is exactly the normalised non-empty tokens |
| MergeProperties.SuppressionErrors | src/upload-settings-plugin.php:102-117 | the suppression diagnostics go to the error list, behind earlier errors, one per empty token and one per dotted token |
| MergeProperties.InitMimeTypesMaps | src/upload-settings-plugin.php:87-176 | the map is the bundled defaults, text, binary and custom sources merged in that order, minus every disallowed key; the disallowed map holds `"false"` for each disallowed extension; the two maps are disjoint; the suppression set is the normalised setting |
| MergeProperties.InitMimeTypesErrors | src/upload-settings-plugin.php:96-160 | the error list keeps its earlier entries in front and grows only by one entry per malformed suppression token and per malformed listing line |
| MergeProperties.InitDisallowsPhp | src/upload-settings-plugin.php:162-175 | with disallowed list `php`, no source can leave `php` in the map |
| MergeProperties.FileExtListWarningInitial | src/upload-settings-plugin.php:192-207 | every `parse_file_ext_list` warning starts with `E`, `F` or `O` |
| MergeProperties.WarningInitial | src/upload-settings-plugin.php:91-207 | every warning the plugin writes starts with `T`, `E`, `F` or `O` |
| MergeProperties.ErrorInitial | src/upload-settings-plugin.php:107-112 | every error the plugin writes starts with `W`, `I` or `N` |
| MergeProperties.MessagesDisjoint | src/upload-settings-plugin.php:91-237 | no string is both one of the plugin's warnings and one of its errors |
| MergeProperties.FileExtListMessages | src/upload-settings-plugin.php:178-213 | `parse_file_ext_list` keeps the earlier warnings in front, appends only its three kinds of warning, and leaves the error list alone |
| MergeProperties.ListingLineMessages | src/upload-settings-plugin.php:217-242 | one listing line appends only `parse_file_ext_list` warnings and "Invalid" or "No mime type" errors, behind the earlier ones |
| MergeProperties.ListingMessages | src/upload-settings-plugin.php:215-243 | a whole listing appends only `parse_file_ext_list` warnings to the warning list and only line errors to the error list |
| MergeProperties.SuppressionMessages | src/upload-settings-plugin.php:102-117 | the "Don't warn about" loop appends only its two error strings, behind the earlier errors |
| MergeProperties.InitMimeTypesWarnings | src/upload-settings-plugin.php:87-170 | the earlier warnings stay in front; the fileinfo notice comes next exactly when the extension is loaded; everything after it is a `parse_file_ext_list` warning |
| MergeProperties.InitMimeTypesErrorKinds | src/upload-settings-plugin.php:96-160 | the earlier errors stay in front and everything appended is a "Don't warn about" diagnostic or a listing line error |
| MergeProperties.InitMimeTypesListsApart | src/upload-settings-plugin.php:87-170 | nothing appended to the error list is a warning, and nothing appended to the warning list is an error |
| MergeProperties.ExtendedMimeTypesEffect | src/upload-settings-plugin.php:67-84 | the filter's result has no disallowed key; a generic plugin type never replaces a non-empty host type; every other plugin entry is written; host entries the plugin neither names nor disallows are unchanged; no other key appears |

## Left out

- WordPress integration is not modelled: `add_filter`, `add_action`, `register_setting`, the settings page and `get_allowed_mime_types`. These are calls into the host platform.
- `get_option` and `update_option` are not modelled, nor is the first-install seeding of default options in the constructor. The option strings are the `Settings` parameter.
- `file()` of `mime-types.txt` is not modelled. That file is not part of this model, and its lines are a parameter.
- `extension_loaded('fileinfo')` and `is_admin()` are environment probes. They become boolean parameters.
- `_settings_page` is HTML rendering and is not part of this model.
- The static singleton `init` is not modelled; it is lifecycle plumbing.
- PHP keeps array keys in insertion order; maps and sets here are unordered. The warnings and errors stay ordered lists.
- PHP turns a numeric-string key such as `"12"` into an integer key. That is not modelled, and keys stay strings.
- FileExtListSingle: PHP's `!=` compares two numeric strings numerically (`"1.0" != "1"` is false). The model compares strings exactly, and the same holds in `FileExtList`.
- FileExtListEffect: the overwrite count and contents rest on the same exact string comparison, through `OverwrittenExts`.
- FileExtListLeadingDot: before PHP 8, `substr(".", 1)` returns `false`, which becomes the array key `0`. The model follows PHP 8, which returns `""`.
- At src/upload-settings-plugin.php:241 a sixth argument, the error list, is passed to `parse_file_ext_list`. PHP ignores it, and so does the model.
