/**
 * The schema-version tracker of try.py:52-93: a stored record of the last
 * version number, the fingerprints of the input files and the time of the
 * last generation. The record file is a field holding the stored record (or
 * nothing when the file does not exist); the input files are a map from path
 * to content, the fingerprint function is a parameter of the tracker and the
 * current time a parameter of the update.
 */
module Versioning {
  import opened Wrappers

  /** The JSON record kept in `schema_version.json`. */
  datatype VersionInfo = VersionInfo(
    lastVersion: int,
    fileHashes: map<string, string>,
    lastGenerated: Option<string>)

  /** What `load_version_info` returns when there is no record yet (try.py:57-61). */
  const DefaultInfo: VersionInfo := VersionInfo(0, map[], None)

  /** Opening an input file that does not exist raises; the path is reported. */
  datatype VersionError = MissingFile(path: string)

  /**
   * `files_have_changed` over the stored fingerprints: the files are looked at
   * in order and the first one whose fingerprint differs from the stored one
   * (or has none stored) answers `true`. A missing file raises before its
   * fingerprint is compared.
   */
  function Changed(hash: string -> string, stored: map<string, string>, contents: map<string, string>, files: seq<string>): (r: Result<bool, VersionError>)
    ensures r.Err? ==> r.error.path in files && r.error.path !in contents
    ensures files == [] ==> r == Ok(false)
  {
    if files == [] then Ok(false)
    else if files[0] !in contents then Err(MissingFile(files[0]))
    else if files[0] !in stored || stored[files[0]] != hash(contents[files[0]]) then Ok(true)
    else Changed(hash, stored, contents, files[1..])
  }

  /** `{f: hash(f) for f in files}`, or the first missing file. */
  function Fingerprints(hash: string -> string, contents: map<string, string>, files: seq<string>): (r: Result<map<string, string>, VersionError>)
    ensures r.Err? ==> r.error.path in files && r.error.path !in contents
    ensures r.Ok? ==> r.value.Keys == set f <- files
  {
    if files == [] then Ok(map[])
    else match Fingerprints(hash, contents, files[..|files| - 1])
      case Err(e) => Err(e)
      case Ok(m) =>
        if files[|files| - 1] !in contents then Err(MissingFile(files[|files| - 1]))
        else Ok(m[files[|files| - 1] := hash(contents[files[|files| - 1]])])
  }

  /** Nothing has changed exactly when every file exists and its stored fingerprint is its current one. */
  lemma {:induction false} UnchangedIff(hash: string -> string, stored: map<string, string>, contents: map<string, string>, files: seq<string>)
    ensures Changed(hash, stored, contents, files) == Ok(false)
        <==> forall f <- files :: f in contents && f in stored && stored[f] == hash(contents[f])
  {
    if files != [] {
      UnchangedIff(hash, stored, contents, files[1..]);
      assert forall f <- files :: f == files[0] || f in files[1..];
    }
  }

  /** A `true` answer names a file that exists and whose fingerprint is new. */
  lemma {:induction false} ChangedWitness(hash: string -> string, stored: map<string, string>, contents: map<string, string>, files: seq<string>)
    requires Changed(hash, stored, contents, files) == Ok(true)
    ensures exists f <- files :: f in contents && (f !in stored || stored[f] != hash(contents[f]))
  {
    if files[0] in contents && files[0] in stored && stored[files[0]] == hash(contents[files[0]]) {
      ChangedWitness(hash, stored, contents, files[1..]);
      var f :| f in files[1..] && f in contents && (f !in stored || stored[f] != hash(contents[f]));
      assert f in files;
    }
  }

  /** The fingerprints cover exactly the listed files, each with its current fingerprint. */
  lemma {:induction false} FingerprintsOk(hash: string -> string, contents: map<string, string>, files: seq<string>)
    ensures Fingerprints(hash, contents, files).Ok? <==> forall f <- files :: f in contents
    ensures Fingerprints(hash, contents, files).Ok? ==>
      Fingerprints(hash, contents, files).value.Keys == (set f <- files)
      && forall f <- files :: Fingerprints(hash, contents, files).value[f] == hash(contents[f])
  {
    if files != [] {
      var front, last := files[..|files| - 1], files[|files| - 1];
      FingerprintsOk(hash, contents, front);
      assert forall f <- files :: f in front || f == last;
      assert forall f <- front :: f in files;
    }
  }

  /** Just after an update, the same contents read as unchanged. */
  lemma UpdatedIsUnchanged(hash: string -> string, contents: map<string, string>, files: seq<string>)
    requires Fingerprints(hash, contents, files).Ok?
    ensures Changed(hash, Fingerprints(hash, contents, files).value, contents, files) == Ok(false)
  {
    FingerprintsOk(hash, contents, files);
    UnchangedIff(hash, Fingerprints(hash, contents, files).value, contents, files);
  }

  /** The version tracker of `PumlToDDLConverter`. */
  class VersionTracker {
    /** `calculate_file_hash` on a file's content (SHA-256 in try.py:47-50). */
    const hash: string -> string
    /** The record file: `None` while it does not exist. */
    var record: Option<VersionInfo>

    constructor(hash: string -> string, record: Option<VersionInfo>)
      ensures this.hash == hash && this.record == record
    {
      this.hash := hash;
      this.record := record;
    }

    /** `load_version_info` */
    function Load(): (info: VersionInfo)
      reads this
      ensures record.None? ==> info == DefaultInfo
    {
      if record.Some? then record.value else DefaultInfo
    }

    /** `files_have_changed` */
    method FilesHaveChanged(contents: map<string, string>, files: seq<string>) returns (r: Result<bool, VersionError>)
      ensures r == Changed(hash, Load().fileHashes, contents, files)
    {
      var stored := Load().fileHashes;
      var i := 0;
      while i < |files|
        invariant 0 <= i <= |files|
        invariant Changed(hash, stored, contents, files) == Changed(hash, stored, contents, files[i..])
      {
        assert files[i..][1..] == files[i + 1..];
        var f := files[i];
        if f !in contents {
          return Err(MissingFile(f));
        }
        var current := hash(contents[f]);
        if f !in stored || stored[f] != current {
          return Ok(true);
        }
        i := i + 1;
      }
      return Ok(false);
    }

    /** `get_next_version`: one past the stored version; nothing is written. */
    method GetNextVersion() returns (n: int)
      ensures n == Load().lastVersion + 1
    {
      var info := Load();
      n := info.lastVersion + 1;
    }

    /**
     * `update_version_info`: stores the new version, the time and the
     * fingerprints of exactly the given files. The fingerprints are computed
     * after the other two fields are set but before anything is saved, so a
     * missing file leaves the record as it was.
     */
    method UpdateVersionInfo(contents: map<string, string>, files: seq<string>, newVersion: int, now: string)
      returns (r: Result<(), VersionError>)
      modifies this
      ensures r.Ok? <==> Fingerprints(hash, contents, files).Ok?
      ensures r.Ok? ==> record == Some(VersionInfo(newVersion, Fingerprints(hash, contents, files).value, Some(now)))
      ensures r.Ok? ==> Changed(hash, Load().fileHashes, contents, files) == Ok(false)
      ensures r.Err? ==> record == old(record) && r.error == Fingerprints(hash, contents, files).error
    {
      var info := Load();
      info := info.(lastVersion := newVersion, lastGenerated := Some(now));
      var m: map<string, string> := map[];
      var i := 0;
      while i < |files|
        invariant 0 <= i <= |files|
        invariant Fingerprints(hash, contents, files[..i]) == Ok(m)
      {
        assert files[..i + 1][..i] == files[..i];
        var f := files[i];
        if f !in contents {
          PrefixFails(contents, files, i + 1);
          return Err(MissingFile(f));
        }
        m := m[f := hash(contents[f])];
        i := i + 1;
      }
      assert files[..i] == files;
      UpdatedIsUnchanged(hash, contents, files);
      record := Some(info.(fileHashes := m));
      return Ok(());
    }

    /** A prefix that already fails makes the whole list fail with the same error. */
    lemma {:induction false} PrefixFails(contents: map<string, string>, files: seq<string>, n: nat)
      requires n <= |files| && Fingerprints(hash, contents, files[..n]).Err?
      ensures Fingerprints(hash, contents, files) == Fingerprints(hash, contents, files[..n])
      decreases |files| - n
    {
      if n < |files| {
        assert files[..n + 1][..n] == files[..n];
        PrefixFails(contents, files, n + 1);
      } else {
        assert files[..n] == files;
      }
    }
  }
}
