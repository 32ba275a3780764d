/** The file store: uploads become files named by a generated UUID and the original
    extension, served under a fixed URL prefix. The store itself is the set of relative
    paths it holds; UUID text is supplied by the caller. */
module Files {
  import opened Wrappers
  import Text
  import Seqs

  const FilesPrefix: string := "/api/v1/files/"

  /** `getFileUrl`: null for a missing or empty path, otherwise the prefixed path. */
  function GetFileUrl(path: Option<string>): (r: Option<string>)
    ensures r.Some? <==> path.Some? && path.value != ""
    ensures r.Some? ==> Text.StartsWith(r.value, FilesPrefix) && |r.value| > |FilesPrefix|
  {
    if path.None? || path.value == "" then None
    else
      assert (FilesPrefix + path.value)[..|FilesPrefix|] == FilesPrefix;
      Some(FilesPrefix + path.value)
  }

  /** `extractPathFromUrl` (one definition for the identical copies in the profile,
      banner and catalogue services): null for a missing or empty URL, the URL without
      the prefix when it has it, and any other URL unchanged. */
  function ExtractPathFromUrl(url: Option<string>): (r: Option<string>)
    ensures r.None? <==> url.None? || url.value == ""
    ensures r.Some? && !Text.StartsWith(url.value, FilesPrefix) ==> r.value == url.value
    ensures r.Some? && Text.StartsWith(url.value, FilesPrefix) ==> url.value == FilesPrefix + r.value
  {
    if url.None? || url.value == "" then None
    else if Text.StartsWith(url.value, FilesPrefix) then
      assert url.value == url.value[..|FilesPrefix|] + url.value[|FilesPrefix|..];
      Some(url.value[|FilesPrefix|..])
    else Some(url.value)
  }

  /** Round trip from a path: the URL of a non-empty path gives the path back. */
  lemma PathUrlRoundTrip(path: string)
    requires path != ""
    ensures ExtractPathFromUrl(GetFileUrl(Some(path))) == Some(path)
  {
    var u := FilesPrefix + path;
    assert u[..|FilesPrefix|] == FilesPrefix;
    assert u[|FilesPrefix|..] == path;
  }

  /** Round trip from a URL: a served URL with something after the prefix is the URL of
      the path extracted from it. */
  lemma UrlPathRoundTrip(url: string)
    requires Text.StartsWith(url, FilesPrefix) && |url| > |FilesPrefix|
    ensures GetFileUrl(ExtractPathFromUrl(Some(url))) == Some(url)
  {
  }

  /** The documented example: a banner image URL gives the relative path below the
      upload directory; other strings are left alone. */
  lemma ExtractPathExamples()
    ensures ExtractPathFromUrl(Some("/api/v1/files/banners/image.jpg")) == Some("banners/image.jpg")
    ensures ExtractPathFromUrl(Some("banners/image.jpg")) == Some("banners/image.jpg")
    ensures ExtractPathFromUrl(Some("")) == None
  {
    PathUrlRoundTrip("banners/image.jpg");
    assert FilesPrefix + "banners/image.jpg" == "/api/v1/files/banners/image.jpg";
    assert "banners/image.jpg"[..|FilesPrefix|][0] != FilesPrefix[0];
  }

  /** A multipart upload: the client's file name (may be null) and the byte count. */
  datatype Upload = Upload(originalName: Option<string>, size: nat)

  /** `file != null && !file.isEmpty()`. */
  predicate IsPresent(file: Option<Upload>) {
    file.Some? && file.value.size > 0
  }

  /** The extension kept from the original name: the suffix from its last '.' on, or
      "" when there is no name or no '.' in it. */
  function Extension(name: Option<string>): (r: string)
    ensures name.None? || '.' !in name.value ==> r == ""
    ensures name.Some? && '.' in name.value ==>
      && |r| > 0 && r[0] == '.'
      && '.' !in r[1..]
      && |r| <= |name.value|
      && name.value[|name.value| - |r|..] == r
  {
    if name.None? || '.' !in name.value then ""
    else
      var i := Text.LastIndexOf(name.value, '.');
      assert i >= 0 by {
        var j :| 0 <= j < |name.value| && name.value[j] == '.';
      }
      var r := name.value[i..];
      assert forall k :: 1 <= k < |r| ==> r[k] == name.value[i + k];
      r
  }

  /** The relative path a stored upload gets. */
  function StoredPath(subdirectory: string, uuid: string, originalName: Option<string>): string {
    subdirectory + "/" + uuid + Extension(originalName)
  }

  lemma StoredPathNonEmpty(subdirectory: string, uuid: string, originalName: Option<string>)
    ensures StoredPath(subdirectory, uuid, originalName) != ""
  {
    assert |StoredPath(subdirectory, uuid, originalName)| >= |subdirectory| + 1;
  }

  /** The extension of a stored file's path is the extension of its original name, as
      long as the directory and the UUID text have no '.'. */
  lemma StoredPathKeepsExtension(subdirectory: string, uuid: string, originalName: Option<string>)
    requires '.' !in subdirectory && '.' !in uuid
    ensures Extension(Some(StoredPath(subdirectory, uuid, originalName))) == Extension(originalName)
  {
    var a := subdirectory + "/" + uuid;
    var e := Extension(originalName);
    var p := a + e;
    assert '.' !in a;
    if |e| == 0 {
      assert p == a;
    } else {
      assert p[|a|] == '.';
      var i := Text.LastIndexOf(p, '.');
      assert forall k :: |a| < k < |p| ==> p[k] == e[k - |a|];
      assert forall k :: |a| < k < |p| ==> p[k] != '.' by {
        forall k | |a| < k < |p| ensures p[k] != '.' {
          assert e[k - |a|] == e[1..][k - |a| - 1];
        }
      }
      assert i == |a|;
      assert p[i..] == e;
    }
  }

  datatype StoreError = FileEmptyOrNull

  const FileEmptyMessage: string := "File is empty or null"

  /** `storeFile`: refuses a missing or empty upload before touching the disk;
      otherwise writes it under `subdirectory` and returns its relative path. */
  function StoreFile(store: set<string>, file: Option<Upload>, subdirectory: string, uuid: string)
    : (r: Result<(set<string>, string), StoreError>)
    ensures r.Failure? <==> !IsPresent(file)
    ensures r.Success? ==> r.value.1 == StoredPath(subdirectory, uuid, file.value.originalName)
    ensures r.Success? ==> r.value.0 == store + {r.value.1}
  {
    if file.None? || file.value.size == 0 then Failure(FileEmptyOrNull)
    else
      var path := StoredPath(subdirectory, uuid, file.value.originalName);
      Success((store + {path}, path))
  }

  /** A stored file's path starts with its directory, and its URL leads back to it. */
  lemma StoredFileServed(store: set<string>, file: Option<Upload>, subdirectory: string, uuid: string)
    requires StoreFile(store, file, subdirectory, uuid).Success?
    ensures var (store', path) := StoreFile(store, file, subdirectory, uuid).value;
            && path in store'
            && Text.StartsWith(path, subdirectory + "/")
            && ExtractPathFromUrl(GetFileUrl(Some(path))) == Some(path)
  {
    var path := StoreFile(store, file, subdirectory, uuid).value.1;
    assert path == (subdirectory + "/") + (uuid + Extension(file.value.originalName));
    assert path[..|subdirectory + "/"|] == subdirectory + "/";
    PathUrlRoundTrip(path);
  }

  /** A supply of UUID texts: the `k`-th generated name. */
  type UuidSupply = nat -> string

  /** The relative paths the uploads get, in order: the `k`-th takes UUID `uuids(base + k)`. */
  function StoredPaths(uploads: seq<Upload>, subdirectory: string, uuids: UuidSupply, base: nat): (r: seq<string>)
    ensures |r| == |uploads|
    ensures forall k :: 0 <= k < |uploads| ==> r[k] == StoredPath(subdirectory, uuids(base + k), uploads[k].originalName)
    decreases |uploads|
  {
    if |uploads| == 0 then []
    else
      var rest := StoredPaths(uploads[1..], subdirectory, uuids, base + 1);
      var r := [StoredPath(subdirectory, uuids(base), uploads[0].originalName)] + rest;
      assert forall k :: 0 <= k < |uploads| ==> r[k] == StoredPath(subdirectory, uuids(base + k), uploads[k].originalName) by {
        forall k | 0 <= k < |uploads| ensures r[k] == StoredPath(subdirectory, uuids(base + k), uploads[k].originalName) {
          if k > 0 {
            assert r[k] == rest[k - 1];
            assert uploads[1..][k - 1] == uploads[k];
            assert (base + 1) + (k - 1) == base + k;
          }
        }
      }
      r
  }

  /** The uploads of a sequence of present entries. */
  function Uploads(present: seq<Option<Upload>>): (r: seq<Upload>)
    ensures |r| == |present|
    ensures forall k :: 0 <= k < |present| && present[k].Some? ==> r[k] == present[k].value
  {
    if |present| == 0 then []
    else [if present[0].Some? then present[0].value else Upload(None, 0)] + Uploads(present[1..])
  }

  /** `storeMultipleFiles`: each present upload stored in input order (absent and empty
      entries skipped), and the URL of each stored file, in the same order. An absent
      or empty array stores nothing and gives no URLs. */
  function StoreMultipleFiles(store: set<string>, files: Option<seq<Option<Upload>>>, subdirectory: string,
                              uuids: UuidSupply, base: nat)
    : (r: (set<string>, seq<string>))
    ensures files.None? ==> r == (store, [])
    ensures files.Some? ==>
      var paths := StoredPaths(Uploads(Seqs.Filter(files.value, IsPresent)), subdirectory, uuids, base);
      && r.0 == store + (set p | p in paths)
      && |r.1| == |paths|
      && forall k :: 0 <= k < |paths| ==> GetFileUrl(Some(paths[k])) == Some(r.1[k])
  {
    if files.None? || |files.value| == 0 then (store, [])
    else
      var uploads := Uploads(Seqs.Filter(files.value, IsPresent));
      var paths := StoredPaths(uploads, subdirectory, uuids, base);
      var urls := seq(|paths|, k requires 0 <= k < |paths| => FilesPrefix + paths[k]);
      assert forall k :: 0 <= k < |paths| ==> GetFileUrl(Some(paths[k])) == Some(urls[k]) by {
        forall k | 0 <= k < |paths| ensures GetFileUrl(Some(paths[k])) == Some(urls[k]) {
          StoredPathNonEmpty(subdirectory, uuids(base + k), uploads[k].originalName);
        }
      }
      (store + (set p | p in paths), urls)
  }

  /** The URLs returned and the files stored correspond: every URL leads to a stored
      file, and every newly stored file is behind one of the URLs. There is one URL per
      present upload. */
  lemma StoredFilesMatchUrls(store: set<string>, files: seq<Option<Upload>>, subdirectory: string,
                             uuids: UuidSupply, base: nat)
    ensures var r := StoreMultipleFiles(store, Some(files), subdirectory, uuids, base);
            && |r.1| == Seqs.Count(files, IsPresent)
            && (forall k :: 0 <= k < |r.1| ==> ExtractPathFromUrl(Some(r.1[k])).value in r.0)
            && (forall p :: p in r.0 && p !in store ==>
                  exists k :: 0 <= k < |r.1| && ExtractPathFromUrl(Some(r.1[k])) == Some(p))
  {
    var r := StoreMultipleFiles(store, Some(files), subdirectory, uuids, base);
    var uploads := Uploads(Seqs.Filter(files, IsPresent));
    var paths := StoredPaths(uploads, subdirectory, uuids, base);
    StoredPathsNonEmpty(uploads, subdirectory, uuids, base);
    UrlsLeadToPaths(store, paths, r.0, r.1);
  }

  lemma StoredPathsNonEmpty(uploads: seq<Upload>, subdirectory: string, uuids: UuidSupply, base: nat)
    ensures forall k :: 0 <= k < |uploads| ==> StoredPaths(uploads, subdirectory, uuids, base)[k] != ""
  {
    forall k | 0 <= k < |uploads| ensures StoredPaths(uploads, subdirectory, uuids, base)[k] != "" {
      StoredPathNonEmpty(subdirectory, uuids(base + k), uploads[k].originalName);
    }
  }

  /** URLs made from non-empty paths lead back to them. */
  lemma UrlsLeadToPaths(store: set<string>, paths: seq<string>, store': set<string>, urls: seq<string>)
    requires forall k :: 0 <= k < |paths| ==> paths[k] != ""
    requires store' == store + (set p | p in paths)
    requires |urls| == |paths| && forall k :: 0 <= k < |paths| ==> GetFileUrl(Some(paths[k])) == Some(urls[k])
    ensures forall k :: 0 <= k < |urls| ==> ExtractPathFromUrl(Some(urls[k])) == Some(paths[k])
    ensures forall k :: 0 <= k < |urls| ==> ExtractPathFromUrl(Some(urls[k])).value in store'
    ensures forall p :: p in store' && p !in store ==>
              exists k :: 0 <= k < |urls| && ExtractPathFromUrl(Some(urls[k])) == Some(p)
  {
    forall k | 0 <= k < |paths| ensures ExtractPathFromUrl(Some(urls[k])) == Some(paths[k]) {
      PathUrlRoundTrip(paths[k]);
    }
    forall p | p in store' && p !in store
      ensures exists k :: 0 <= k < |urls| && ExtractPathFromUrl(Some(urls[k])) == Some(p)
    {
      var k :| 0 <= k < |paths| && paths[k] == p;
    }
  }

  /** Nothing present, nothing stored. */
  lemma NoPresentUploadStoresNothing(store: set<string>, files: seq<Option<Upload>>, subdirectory: string,
                                     uuids: UuidSupply, base: nat)
    requires forall k :: 0 <= k < |files| ==> !IsPresent(files[k])
    ensures StoreMultipleFiles(store, Some(files), subdirectory, uuids, base) == (store, [])
  {
    assert |Seqs.Filter(files, IsPresent)| == Seqs.Count(files, IsPresent) == 0;
    var paths := StoredPaths(Uploads(Seqs.Filter(files, IsPresent)), subdirectory, uuids, base);
    assert |paths| == 0;
    assert (set p | p in paths) == {};
    var r := StoreMultipleFiles(store, Some(files), subdirectory, uuids, base);
    assert r.0 == store;
    assert r.1 == [];
  }

  datatype DeleteError = NullPath

  /** `deleteFile`: removes the file if it exists and reports whether it did. A null
      path makes path resolution throw a null-pointer exception. */
  function DeleteFile(store: set<string>, path: Option<string>): (r: Result<(set<string>, bool), DeleteError>)
    ensures r.Failure? <==> path.None?
    ensures r.Success? ==> r.value.0 == store - {path.value} && (r.value.1 <==> path.value in store)
  {
    if path.None? then Failure(NullPath)
    else Success((store - {path.value}, path.value in store))
  }

  /** Deleting the file behind a URL a stored file was given removes exactly that file. */
  lemma DeleteStoredFile(store: set<string>, path: string)
    requires path in store && path != ""
    ensures DeleteFile(store, ExtractPathFromUrl(GetFileUrl(Some(path)))) == Success((store - {path}, true))
  {
    PathUrlRoundTrip(path);
  }

  /** The services' "delete the old file" step: the path extracted from a stored URL,
      when there is one, is deleted; a missing or empty URL deletes nothing. */
  function DeleteByUrl(store: set<string>, url: Option<string>): (r: set<string>)
    ensures ExtractPathFromUrl(url).None? ==> r == store
    ensures ExtractPathFromUrl(url).Some? ==> r == store - {ExtractPathFromUrl(url).value}
  {
    match ExtractPathFromUrl(url)
    case None => store
    case Some(path) => DeleteFile(store, Some(path)).value.0
  }
}
