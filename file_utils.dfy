/**
 * Directory-name sanitisation and download-path composition, in both revisions.
 * Paths are lists of components; creating the directory is not part of the model.
 */
module FileUtils {
  import opened Common

  /** The two values of `os.name` the sanitiser knows. */
  datatype OsName = Nt | Posix

  const DownloadFolder: string := "Downloads"

  /** Characters the sanitiser replaces: `\ / : * ? " < > |` on nt, `/ :` on posix. */
  function InvalidChars(os: OsName): set<char> {
    match os
    case Nt => {'\\', '/', ':', '*', '?', '"', '<', '>', '|'}
    case Posix => {'/', ':'}
  }

  /** Characters that separate path components. */
  function Separators(os: OsName): set<char> {
    match os
    case Nt => {'\\', '/'}
    case Posix => {'/'}
  }

  /** `re.sub(invalid_chars, "_", directory_name)`. */
  function Sanitize(os: OsName, name: string): (r: string)
    ensures |r| == |name|
    ensures forall i :: 0 <= i < |name| ==>
              r[i] == (if name[i] in InvalidChars(os) then '_' else name[i])
  {
    if name == [] then []
    else [if name[0] in InvalidChars(os) then '_' else name[0]] + Sanitize(os, name[1..])
  }

  /** The posix set is contained in the nt set, and neither contains `_`. */
  lemma InvalidCharSets()
    ensures InvalidChars(Posix) <= InvalidChars(Nt)
    ensures '_' !in InvalidChars(Nt) && '_' !in InvalidChars(Posix)
    ensures Separators(Nt) <= InvalidChars(Nt) && Separators(Posix) <= InvalidChars(Posix)
  {
  }

  /** Sanitised names contain no invalid character, and so no path separator. */
  lemma SanitizeClean(os: OsName, name: string)
    ensures forall i :: 0 <= i < |name| ==> Sanitize(os, name)[i] !in InvalidChars(os)
    ensures forall i :: 0 <= i < |name| ==> Sanitize(os, name)[i] !in Separators(os)
  {
  }

  /** Sanitising twice is sanitising once. */
  lemma SanitizeIdempotent(os: OsName, name: string)
    ensures Sanitize(os, Sanitize(os, name)) == Sanitize(os, name)
  {
    var s := Sanitize(os, name);
    assert forall i :: 0 <= i < |s| ==> Sanitize(os, s)[i] == s[i];
  }

  /** A name sanitised for nt needs nothing more on posix. */
  lemma SanitizeNtIsPosixClean(name: string)
    ensures Sanitize(Posix, Sanitize(Nt, name)) == Sanitize(Nt, name)
  {
    var s := Sanitize(Nt, name);
    assert forall i :: 0 <= i < |s| ==> Sanitize(Posix, s)[i] == s[i];
  }

  /**
   * `base / name` for a name without separators: pathlib drops an empty or `.`
   * component and keeps any other as one more component.
   */
  function Join(base: seq<string>, name: string): seq<string> {
    if name == "" || name == "." then base else base + [name]
  }

  /** `custom_path/Downloads` when a non-empty custom path is given, else `Downloads`. */
  function BasePath(customPath: Option<string>): (p: seq<string>)
    ensures customPath.Some? && customPath.value != "" ==> p == [customPath.value, DownloadFolder]
    ensures customPath.None? || customPath.value == "" ==> p == [DownloadFolder]
  {
    match customPath
    case Some(c) => if c != "" then [c, DownloadFolder] else [DownloadFolder]
    case None => [DownloadFolder]
  }

  /** The path computed by the current `create_download_directory`. */
  function DownloadPath(os: OsName, directoryName: string, customPath: Option<string>): seq<string> {
    var sanitized := if directoryName != "" then Some(Sanitize(os, directoryName)) else None;
    var base := BasePath(customPath);
    if sanitized.Some? && sanitized.value != "" then Join(base, sanitized.value) else base
  }

  /**
   * An empty name yields the base path itself; any other name except `.` extends it
   * by exactly one component, the sanitised name.
   */
  lemma DownloadPathShape(os: OsName, directoryName: string, customPath: Option<string>)
    ensures directoryName == "" || directoryName == "." ==>
              DownloadPath(os, directoryName, customPath) == BasePath(customPath)
    ensures directoryName != "" && directoryName != "." ==>
              DownloadPath(os, directoryName, customPath) == BasePath(customPath) + [Sanitize(os, directoryName)]
  {
    if directoryName == "." {
      assert Sanitize(os, directoryName) == ".";
    }
  }

  /** The path computed by the older `create_download_directory`: always `Downloads / name`. */
  function LegacyDownloadPath(os: OsName, directoryName: string): seq<string> {
    Join([DownloadFolder], Sanitize(os, directoryName))
  }

  /**
   * The older path equals the current one without a custom path, for every name: the
   * download folder, then at most one component, free of invalid characters.
   */
  lemma LegacyPathMatchesCurrent(os: OsName, directoryName: string)
    ensures LegacyDownloadPath(os, directoryName) == DownloadPath(os, directoryName, None)
    ensures LegacyDownloadPath(os, directoryName)[0] == DownloadFolder
    ensures |LegacyDownloadPath(os, directoryName)| <= 2
    ensures var p := LegacyDownloadPath(os, directoryName);
            |p| == 2 ==> forall i :: 0 <= i < |p[1]| ==> p[1][i] !in InvalidChars(os)
  {
    DownloadPathShape(os, directoryName, None);
    SanitizeClean(os, directoryName);
  }
}
