/**
 The plugin object: its five fields, the two parsing routines that write
 into maps and lists passed by reference, `init_mime_types`, which fills the
 fields in sequence, and the `upload_mimes` filter. Each method runs the
 source's loops and is proved to compute the matching function of
 MimeMerge.
 */
module UploadSettingsPlugin {
  import opened PhpStrings
  import opened MimeMerge
  import opened MergeProperties

  /** Removing one more key of `all` from the map, as the `unset` loops do. */
  lemma RemoveOneMore(m: map<string, string>, all: set<string>, pending: set<string>, k: string)
    requires pending <= all && k in pending
    ensures (m - (all - pending)) - {k} == m - (all - (pending - {k}))
  {
    assert all - (pending - {k}) == (all - pending) + {k};
  }

  /** Appending two optional warnings one after the other. */
  lemma AppendParts(w: seq<string>, x: seq<string>, y: seq<string>)
    requires |x| <= 1 && |y| <= 1
    ensures w + (x + y) == (if x == [] then w else w + x) + y
  {
    if x == [] {
      assert x + y == y;
    }
  }

  class UnrestrictedUploadsPlugin {
    var mimeTypes: map<string, string>
    var disallowedMimeTypes: map<string, string>
    var warnList: seq<string>
    var errorList: seq<string>
    var overwritableFileExts: set<string>

    /** The fields as one value. */
    function State(): PluginState
      reads this
    {
      PluginState(mimeTypes, disallowedMimeTypes, warnList, errorList, overwritableFileExts)
    }

    /**
     The constructor on a back-end page runs `init_mime_types`; anywhere else
     it leaves every field empty. The bundled listing's lines, the fileinfo
     probe and the option strings are passed in.
     */
    constructor (isAdmin: bool, fileinfoLoaded: bool, defaultLines: seq<string>, settings: Settings)
      ensures State() == if isAdmin then InitMimeTypes(fileinfoLoaded, defaultLines, settings, NoState) else NoState
      ensures mimeTypes.Keys !! disallowedMimeTypes.Keys
    {
      mimeTypes, disallowedMimeTypes := map[], map[];
      warnList, errorList := [], [];
      overwritableFileExts := {};
      new;
      if isAdmin {
        RunInitMimeTypes(fileinfoLoaded, defaultLines, settings);
      }
    }

    /**
     `parse_file_ext_list`: stores every extension of the comma-separated
     `list` with `mimeType` into `acc.mimes`, appending warnings to
     `acc.warns`. The error list is passed through untouched.
     */
    static method ParseFileExtList(list: string, mimeType: string, overwritable: set<string>, acc: Merged)
      returns (r: Merged)
      ensures r == FileExtList(list, mimeType, overwritable, acc)
      ensures Empty(Trim(list)) ==> r == acc
      ensures r.errors == acc.errors
    {
      var trimmed := Trim(list);
      if Empty(trimmed) {
        return acc;
      }
      var fileExtensions := Explode(',', trimmed);
      assert fileExtensions == Tokens(list);
      var mimes, warns := acc.mimes, acc.warns;
      for i := 0 to |fileExtensions|
        invariant Merged(mimes, warns, acc.errors) == AddExts(trimmed, mimeType, overwritable, fileExtensions[..i], acc)
      {
        ghost var before := Merged(mimes, warns, acc.errors);
        ghost var after := AddExt(trimmed, mimeType, overwritable, fileExtensions[i], before);
        assert AddExts(trimmed, mimeType, overwritable, fileExtensions[..i + 1], acc) == after by {
          assert fileExtensions[..i + 1][..i] == fileExtensions[..i];
        }
        var fileExtension := Trim(fileExtensions[i]);
        if Empty(fileExtension) {
          warns := warns + [EmptyExtWarning(trimmed)];
          continue;
        }
        ghost var dotted: seq<string> := [];
        if fileExtension[0] == '.' {
          warns := warns + [LeadingDotWarning(trimmed)];
          dotted := [LeadingDotWarning(trimmed)];
          fileExtension := fileExtension[1..];
        }
        ghost var overwriting: seq<string> := [];
        if fileExtension !in overwritable {
          var existingVal := Lookup(mimes, fileExtension);
          if !Empty(existingVal) && mimeType != existingVal {
            warns := warns + [OverwriteWarning(existingVal, fileExtension, mimeType)];
            overwriting := [OverwriteWarning(existingVal, fileExtension, mimeType)];
          }
        }
        mimes := mimes[fileExtension := mimeType];
        assert Merged(mimes, warns, acc.errors) == after by {
          assert TokenWarnings(trimmed, mimeType, overwritable, fileExtensions[i], before.mimes) == dotted + overwriting;
          AppendParts(before.warns, dotted, overwriting);
        }
      }
      assert fileExtensions[..|fileExtensions|] == fileExtensions;
      r := Merged(mimes, warns, acc.errors);
    }

    /**
     `parse_mime_type_listing`: processes `ext1, ext2 : mime/type` lines in
     order, skipping blank and comment lines and reporting malformed ones.
     */
    static method ParseMimeTypeListing(lines: seq<string>, overwritable: set<string>, acc: Merged)
      returns (r: Merged)
      ensures r == Listing(lines, overwritable, acc)
      ensures |r.errors| == |acc.errors| + MalformedLineCount(lines)
    {
      r := acc;
      for i := 0 to |lines|
        invariant r == Listing(lines[..i], overwritable, acc)
      {
        assert lines[..i + 1][..i] == lines[..i];
        var line := Trim(lines[i]);
        if Empty(line) || line[0] == '#' {
          continue;
        }
        var parts := Explode(':', line);
        if |parts| != 2 {
          r := r.(errors := r.errors + [InvalidLineError(line)]);
          continue;
        }
        var fileExtensions, mimeType := parts[0], Trim(parts[1]);
        if Empty(mimeType) {
          r := r.(errors := r.errors + [NoMimeTypeError(line)]);
          continue;
        }
        r := ParseFileExtList(fileExtensions, mimeType, overwritable, r);
      }
      assert lines[..|lines|] == lines;
      ListingEffect(lines, overwritable, acc);
    }

    /**
     `init_mime_types`: parses the "Don't warn about" set, merges the five
     sources in order and removes every disallowed key from the map.
     */
    method RunInitMimeTypes(fileinfoLoaded: bool, defaultLines: seq<string>, settings: Settings)
      modifies this
      ensures State() == InitMimeTypes(fileinfoLoaded, defaultLines, settings, old(State()))
      ensures mimeTypes.Keys !! disallowedMimeTypes.Keys
    {
      if fileinfoLoaded {
        warnList := warnList + [FileinfoWarning];
      }
      overwritableFileExts, errorList := ParseOverwritable(settings.allowedFileExtOverwriting, errorList);

      var acc := ParseMimeTypeListing(defaultLines, overwritableFileExts, Merged(mimeTypes, warnList, errorList));
      acc := ParseFileExtList(settings.textFileExtensions, TextFileMimeType, overwritableFileExts, acc);
      acc := ParseFileExtList(settings.binaryFileExtensions, BinaryFileMimeType, overwritableFileExts, acc);
      acc := ParseMimeTypeListing(Explode('\n', settings.customMimeTypes), overwritableFileExts, acc);
      var disallowed := ParseFileExtList(settings.disallowedFileExtensions, DisallowedMarker, {},
                                         Merged(disallowedMimeTypes, acc.warns, acc.errors));
      disallowedMimeTypes, warnList, errorList := disallowed.mimes, disallowed.warns, disallowed.errors;
      mimeTypes := RemoveKeys(acc.mimes, disallowedMimeTypes);
    }

    /**
     The loop of `init_mime_types` over the "Don't warn about" setting: the
     extensions it names, with problems appended to `errors`.
     */
    static method ParseOverwritable(setting: string, errors: seq<string>) returns (exts: set<string>, errs: seq<string>)
      ensures Suppression(exts, errs) == AddSuppressedAll(Tokens(setting), Suppression({}, errors))
    {
      exts, errs := {}, errors;
      var overwritable := Trim(setting);
      if Empty(overwritable) {
        return;
      }
      var tokens := Explode(',', overwritable);
      for i := 0 to |tokens|
        invariant Suppression(exts, errs) == AddSuppressedAll(tokens[..i], Suppression({}, errors))
      {
        assert tokens[..i + 1][..i] == tokens[..i];
        var fileExtension := Trim(tokens[i]);
        if Empty(fileExtension) {
          errs := errs + [EmptySuppressedExtError];
          continue;
        }
        if fileExtension[0] == '.' {
          errs := errs + [LeadingDotSuppressedExtError];
          fileExtension := fileExtension[1..];
        }
        exts := exts + {fileExtension};
      }
      assert tokens[..|tokens|] == tokens;
    }

    /** The `unset` loop over the disallowed extensions: `m` without any key of `disallowed`. */
    static method RemoveKeys(m: map<string, string>, disallowed: map<string, string>) returns (r: map<string, string>)
      ensures r == m - disallowed.Keys
    {
      r := m;
      var keys := disallowed.Keys;
      while keys != {}
        invariant keys <= disallowed.Keys
        invariant r == m - (disallowed.Keys - keys)
        decreases keys
      {
        var key :| key in keys;
        RemoveOneMore(m, disallowed.Keys, keys, key);
        r := r - {key};
        keys := keys - {key};
      }
      assert disallowed.Keys - keys == disallowed.Keys;
    }

    /**
     The `upload_mimes` filter: the host's allow-list `host` extended with
     this plugin's map and stripped of every disallowed extension.
     */
    method ExtendMimeTypes(host: map<string, string>) returns (r: map<string, string>)
      ensures r == ExtendedMimeTypes(host, mimeTypes, disallowedMimeTypes)
    {
      r := host;
      var pending := mimeTypes.Keys;
      while pending != {}
        invariant pending <= mimeTypes.Keys
        invariant r == Overlay(host, mimeTypes, mimeTypes.Keys - pending)
        decreases pending
      {
        var fileExt :| fileExt in pending;
        var mimeType := mimeTypes[fileExt];
        var existingMimeType := Lookup(r, fileExt);
        assert existingMimeType == Lookup(host, fileExt);
        if !(!Empty(existingMimeType) && (mimeType == TextFileMimeType || mimeType == BinaryFileMimeType)) {
          r := r[fileExt := mimeType];
        }
        pending := pending - {fileExt};
      }
      assert mimeTypes.Keys - pending == mimeTypes.Keys;
      r := RemoveKeys(r, disallowedMimeTypes);
    }
  }
}
