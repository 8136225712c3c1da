/**
 The extension-to-MIME-type merge engine of the upload settings plugin, as
 functions on values: what `parse_file_ext_list`, `parse_mime_type_listing`,
 `init_mime_types` and `_extend_mime_types` compute. The class in
 plugin.dfy runs the same steps imperatively and is proved equal to these
 functions; the lemmas in merge_properties.dfy state what the functions
 promise.
 */
module MimeMerge {
  import opened PhpStrings

  const TextFileMimeType := "text/plain"
  const BinaryFileMimeType := "application/octet-stream"

  /** The value stored for every disallowed extension (a string, not a boolean). */
  const DisallowedMarker := "false"

  /** A PHP array lookup under `@`: a missing key reads as the empty string. */
  function Lookup(m: map<string, string>, k: string): string
  {
    if k in m then m[k] else ""
  }

  /** A map from every key in `keys` to `v`. */
  function ConstMap(keys: set<string>, v: string): (m: map<string, string>)
    ensures m.Keys == keys
    ensures forall k :: k in m ==> m[k] == v
  {
    map k | k in keys :: v
  }

  /**
   The three things the parsing routines receive by reference: the map they
   write into, the warning list and the error list.
   */
  datatype Merged = Merged(mimes: map<string, string>, warns: seq<string>, errors: seq<string>)

  // ---------------------------------------------------------------- messages

  function EmptyExtWarning(list: string): string
  {
    "Empty file extension in '" + list + "'"
  }

  function LeadingDotWarning(list: string): string
  {
    "File extension with leading dot in '" + list + "'"
  }

  const OverwritePrefix := "Overwriting existing mime type '"

  function OverwriteWarning(existing: string, ext: string, mime: string): string
  {
    OverwritePrefix + existing + "' for file extension '." + ext + "' with new mime type '" + mime + "'."
  }

  /** Recognises the warning about overwriting an existing mapping. */
  predicate IsOverwriteWarning(w: string)
  {
    |OverwritePrefix| <= |w| && w[..|OverwritePrefix|] == OverwritePrefix
  }

  function InvalidLineError(line: string): string
  {
    "Invalid mime types line '" + line + "'"
  }

  function NoMimeTypeError(line: string): string
  {
    "No mime type specified in line '" + line + "'"
  }

  const SuppressionSetting := " in setting \"Don't warn about\""
  const EmptySuppressedExtError := "Warning: " + "Empty file extension" + SuppressionSetting
  const LeadingDotSuppressedExtError := "Warning: " + "File extension with leading dot" + SuppressionSetting

  const FileinfoWarning :=
    "The PHP extension \"fileinfo\" is loaded. "
    + "It may prevent you from uploading files even though "
    + "you've whitelisted them below (if fileinfo detects a "
    + "different mime type than the one that is reported by "
    + "this plugin). This is a security feature in Wordpress."

  /** A diagnostic of `parse_file_ext_list`: empty token, leading dot or overwrite. */
  ghost predicate IsFileExtListWarning(w: string)
  {
    (exists list :: w == EmptyExtWarning(list))
    || (exists list :: w == LeadingDotWarning(list))
    || IsOverwriteWarning(w)
  }

  /** What the plugin puts on its warning list. */
  ghost predicate IsWarningMessage(w: string)
  {
    w == FileinfoWarning || IsFileExtListWarning(w)
  }

  /** A diagnostic of `parse_mime_type_listing`: an invalid line or a missing type. */
  ghost predicate IsLineError(e: string)
  {
    (exists line :: e == InvalidLineError(line)) || (exists line :: e == NoMimeTypeError(line))
  }

  /** What the plugin puts on its error list. */
  ghost predicate IsErrorMessage(e: string)
  {
    e == EmptySuppressedExtError || e == LeadingDotSuppressedExtError || IsLineError(e)
  }

  // ------------------------------------------------------- extension tokens

  /** Removes one leading dot, if there is one. */
  function StripDot(t: string): string
  {
    if |t| > 0 && t[0] == '.' then t[1..] else t
  }

  /** The comma-separated tokens of a list; none at all when the trimmed list is empty. */
  function Tokens(list: string): seq<string>
  {
    var l := Trim(list);
    if Empty(l) then [] else Explode(',', l)
  }

  predicate IsEmptyToken(tok: string)
  {
    Empty(Trim(tok))
  }

  predicate IsDottedToken(tok: string)
  {
    var t := Trim(tok);
    !Empty(t) && t[0] == '.'
  }

  /** The extension a non-empty token stands for. */
  function NormalizedToken(tok: string): string
  {
    StripDot(Trim(tok))
  }

  /** The extensions named by the non-empty tokens. */
  function TokenExts(toks: seq<string>): set<string>
  {
    set t | t in toks && !IsEmptyToken(t) :: NormalizedToken(t)
  }

  /** The extensions a comma-separated list names. */
  function ExtSet(list: string): set<string>
  {
    TokenExts(Tokens(list))
  }

  function EmptyTokenCount(toks: seq<string>): nat
    decreases |toks|
  {
    if toks == [] then 0
    else EmptyTokenCount(toks[..|toks| - 1]) + (if IsEmptyToken(toks[|toks| - 1]) then 1 else 0)
  }

  function DottedTokenCount(toks: seq<string>): nat
    decreases |toks|
  {
    if toks == [] then 0
    else DottedTokenCount(toks[..|toks| - 1]) + (if IsDottedToken(toks[|toks| - 1]) then 1 else 0)
  }

  // ---------------------------------------------------- parse_file_ext_list

  /**
   The warnings one token `tok` of the trimmed list `list` appends, given
   the map `mimes` as it stands before the token is stored.
   */
  function TokenWarnings(list: string, mime: string, overwritable: set<string>, tok: string, mimes: map<string, string>): seq<string>
  {
    var t := Trim(tok);
    if Empty(t) then [EmptyExtWarning(list)]
    else
      var ext := StripDot(t);
      var existing := Lookup(mimes, ext);
      (if t[0] == '.' then [LeadingDotWarning(list)] else [])
      + (if ext !in overwritable && !Empty(existing) && mime != existing
         then [OverwriteWarning(existing, ext, mime)] else [])
  }

  /** One iteration of the loop of `parse_file_ext_list`. */
  function AddExt(list: string, mime: string, overwritable: set<string>, tok: string, a: Merged): Merged
  {
    Merged(if IsEmptyToken(tok) then a.mimes else a.mimes[NormalizedToken(tok) := mime],
           a.warns + TokenWarnings(list, mime, overwritable, tok, a.mimes),
           a.errors)
  }

  /** The loop of `parse_file_ext_list` run over `toks`, left to right. */
  function AddExts(list: string, mime: string, overwritable: set<string>, toks: seq<string>, a: Merged): (r: Merged)
    ensures r.errors == a.errors
    decreases |toks|
  {
    if toks == [] then a
    else AddExt(list, mime, overwritable, toks[|toks| - 1], AddExts(list, mime, overwritable, toks[..|toks| - 1], a))
  }

  /**
   The extensions of `exts` whose existing type in `m` is non-empty and
   differs from `mime`, and that are not in the suppression set: the ones
   whose write draws an overwrite warning.
   */
  function OverwrittenExts(exts: set<string>, mime: string, overwritable: set<string>, m: map<string, string>): set<string>
  {
    set e | e in exts && e !in overwritable && !Empty(Lookup(m, e)) && Lookup(m, e) != mime
  }

  /** `parse_file_ext_list($list, $mime, $overwritable, $map, $warns)`. */
  function FileExtList(list: string, mime: string, overwritable: set<string>, a: Merged): Merged
  {
    AddExts(Trim(list), mime, overwritable, Tokens(list), a)
  }

  // ----------------------------------------------- parse_mime_type_listing

  /** How `parse_mime_type_listing` treats one line. */
  datatype LineKind = Skipped | Invalid | NoMimeType | Entry(exts: string, mime: string)

  function ClassifyLine(line: string): LineKind
  {
    var t := Trim(line);
    if Empty(t) || t[0] == '#' then Skipped
    else
      var parts := Explode(':', t);
      if |parts| != 2 then Invalid
      else if Empty(Trim(parts[1])) then NoMimeType
      else Entry(parts[0], Trim(parts[1]))
  }

  predicate IsMalformedLine(line: string)
  {
    ClassifyLine(line).Invalid? || ClassifyLine(line).NoMimeType?
  }

  /** One iteration of the loop of `parse_mime_type_listing`. */
  function ListingLine(line: string, overwritable: set<string>, a: Merged): Merged
  {
    match ClassifyLine(line)
    case Skipped => a
    case Invalid => a.(errors := a.errors + [InvalidLineError(Trim(line))])
    case NoMimeType => a.(errors := a.errors + [NoMimeTypeError(Trim(line))])
    case Entry(exts, mime) => FileExtList(exts, mime, overwritable, a)
  }

  /** `parse_mime_type_listing($lines, ...)`: the lines processed in order. */
  function Listing(lines: seq<string>, overwritable: set<string>, a: Merged): Merged
    decreases |lines|
  {
    if lines == [] then a
    else ListingLine(lines[|lines| - 1], overwritable, Listing(lines[..|lines| - 1], overwritable, a))
  }

  /** The entries one line contributes to the map. */
  function LineMap(line: string): map<string, string>
  {
    match ClassifyLine(line)
    case Entry(exts, mime) => ConstMap(ExtSet(exts), mime)
    case _ => map[]
  }

  /** The entries a whole listing contributes, later lines winning. */
  function ListingMap(lines: seq<string>): map<string, string>
    decreases |lines|
  {
    if lines == [] then map[] else ListingMap(lines[..|lines| - 1]) + LineMap(lines[|lines| - 1])
  }

  function MalformedLineCount(lines: seq<string>): nat
    decreases |lines|
  {
    if lines == [] then 0
    else MalformedLineCount(lines[..|lines| - 1]) + (if IsMalformedLine(lines[|lines| - 1]) then 1 else 0)
  }

  // ------------------------------------------------------- init_mime_types

  /** The "Don't warn about" set being built, and the error list it reports to. */
  datatype Suppression = Suppression(exts: set<string>, errors: seq<string>)

  /** One iteration of the loop over the "Don't warn about" tokens. */
  function AddSuppressed(tok: string, s: Suppression): Suppression
  {
    var t := Trim(tok);
    if Empty(t) then s.(errors := s.errors + [EmptySuppressedExtError])
    else if t[0] == '.' then Suppression(s.exts + {t[1..]}, s.errors + [LeadingDotSuppressedExtError])
    else s.(exts := s.exts + {t})
  }

  function AddSuppressedAll(toks: seq<string>, s: Suppression): Suppression
    decreases |toks|
  {
    if toks == [] then s
    else AddSuppressed(toks[|toks| - 1], AddSuppressedAll(toks[..|toks| - 1], s))
  }

  /** The five option strings, each "" when unset. */
  datatype Settings = Settings(
    textFileExtensions: string,
    binaryFileExtensions: string,
    customMimeTypes: string,
    disallowedFileExtensions: string,
    allowedFileExtOverwriting: string)

  /** The plugin object's five fields. */
  datatype PluginState = PluginState(
    mimeTypes: map<string, string>,
    disallowedMimeTypes: map<string, string>,
    warnList: seq<string>,
    errorList: seq<string>,
    overwritableFileExts: set<string>)

  const NoState := PluginState(map[], map[], [], [], {})

  /**
   `init_mime_types` on the state `s`, with the bundled listing given as its
   lines and the fileinfo probe as a flag.
   */
  function InitMimeTypes(fileinfoLoaded: bool, defaultLines: seq<string>, settings: Settings, s: PluginState): PluginState
  {
    var warns := if fileinfoLoaded then s.warnList + [FileinfoWarning] else s.warnList;
    var sup := AddSuppressedAll(Tokens(settings.allowedFileExtOverwriting), Suppression({}, s.errorList));
    var ow := sup.exts;
    var defaults := Listing(defaultLines, ow, Merged(s.mimeTypes, warns, sup.errors));
    var text := FileExtList(settings.textFileExtensions, TextFileMimeType, ow, defaults);
    var binary := FileExtList(settings.binaryFileExtensions, BinaryFileMimeType, ow, text);
    var custom := Listing(Explode('\n', settings.customMimeTypes), ow, binary);
    var disallowed := FileExtList(settings.disallowedFileExtensions, DisallowedMarker, {},
                                  Merged(s.disallowedMimeTypes, custom.warns, custom.errors));
    PluginState(custom.mimes - disallowed.mimes.Keys, disallowed.mimes, disallowed.warns, disallowed.errors, ow)
  }

  // ---------------------------------------------------- _extend_mime_types

  /** A generic plugin type does not replace a non-empty host type. */
  predicate KeepsHostType(host: map<string, string>, ext: string, mime: string)
  {
    !Empty(Lookup(host, ext)) && (mime == TextFileMimeType || mime == BinaryFileMimeType)
  }

  /** The host map once the plugin entries for the keys in `done` have been considered. */
  function Overlay(host: map<string, string>, plugin: map<string, string>, done: set<string>): map<string, string>
    requires done <= plugin.Keys
  {
    map k | k in host.Keys + done ::
      if k in done && !KeepsHostType(host, k, plugin[k]) then plugin[k] else host[k]
  }

  /** What `_extend_mime_types` returns for the host map `host`. */
  function ExtendedMimeTypes(host: map<string, string>, plugin: map<string, string>, disallowed: map<string, string>): map<string, string>
  {
    Overlay(host, plugin, plugin.Keys) - disallowed.Keys
  }
}
