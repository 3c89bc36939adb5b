/**
 * The two record types of the migration plan. A `FileOccurrenceRecord` says
 * how a URL occurs in one Markdown file; an `ImageUrlRecord` holds what is
 * known about one image URL: whether it passes the filters, the local name
 * it gets, whether its download succeeded, and where it occurs. The decision
 * logic of `ImageUrlRecord.download` is here, with the fetch itself replaced
 * by its outcome.
 */
module Records {
  import opened Strings
  import opened Wrappers

  datatype FileOccurrenceRecord = FileOccurrenceRecord(
    filepath: string,
    numImageElements: int,
    numExtraTextualOccurrences: int,
    replaceSuccessful: bool)
  {
    /** Replacing is safe only when every textual occurrence of the URL in the
        file is an image element. */
    predicate ReplacementUnsafe() {
      numExtraTextualOccurrences > 0
    }
  }

  /** The fields of an `ImageUrlRecord` at one moment. */
  datatype ImageUrl = ImageUrl(
    url: string,
    passesFilters: bool,
    originalFilename: string,
    localBasename: string,
    localExt: string,
    downloadSuccessful: bool,
    fileOccurrences: seq<FileOccurrenceRecord>)
  {
    /** `local_filename`: the basename, with the extension behind a dot when
        there is one. */
    function LocalFilename(): string {
      if localExt != [] then localBasename + "." + localExt else localBasename
    }
  }

  /** The local file name splits back into its basename and extension, so the
      extension the download sniffed is the one a reader of the file sees. */
  lemma LocalFilenameSplits(v: ImageUrl)
    requires '/' !in v.localBasename && exists i :: 0 <= i < |v.localBasename| && v.localBasename[i] != '.'
    requires '.' !in v.localExt && '/' !in v.localExt
    ensures v.localExt != [] ==> SplitExt(v.LocalFilename()) == (v.localBasename, "." + v.localExt)
    ensures v.localExt != [] ==> RemoveChar(SplitExt(v.LocalFilename()).1, '.') == v.localExt
    ensures v.localExt == [] ==> v.LocalFilename() == v.localBasename
  {
    if v.localExt != [] {
      SplitExtOfJoined(v.localBasename, v.localExt);
      RemoveDotOfExt("." + v.localExt);
      assert ("." + v.localExt)[1..] == v.localExt;
    }
  }

  /** The first occurrence record for `filepath`, as `get_file_occurrence`
      returns it, by position. */
  function OccurrenceIndex(occs: seq<FileOccurrenceRecord>, filepath: string): (r: Option<nat>)
    ensures r.Some? ==> r.value < |occs| && occs[r.value].filepath == filepath
    ensures r.Some? ==> forall j :: 0 <= j < r.value ==> occs[j].filepath != filepath
    ensures r.None? <==> forall j :: 0 <= j < |occs| ==> occs[j].filepath != filepath
    decreases |occs|
  {
    if occs == [] then None
    else if occs[0].filepath == filepath then Some(0)
    else
      var rest := OccurrenceIndex(occs[1..], filepath);
      assert forall j :: 1 <= j < |occs| ==> occs[j] == occs[1..][j - 1];
      if rest.Some? then Some(rest.value + 1) else None
  }

  /** What fetching the URL came to: the HTTP status and, for a body read into
      memory, the image type sniffed from its bytes (none if it is not an
      image). */
  datatype FetchOutcome = FetchOutcome(status: int, sniffed: Option<string>)

  /** The `ValueError`s `download` raises before it fetches anything. */
  datatype DownloadError = EmptyLocalDir | NoLocalBasename

  /** `download` on a record's fields: the error raised, or the fields after
      it. A failed fetch only logs, so it leaves the record as it was. */
  function Downloaded(v: ImageUrl, localDir: string, outcome: FetchOutcome): Result<ImageUrl, DownloadError> {
    if localDir == [] then Failure(EmptyLocalDir)
    else if v.localBasename == [] then Failure(NoLocalBasename)
    else if v.localExt != [] then
      if outcome.status != 200 then Success(v) else Success(v.(downloadSuccessful := true))
    else if outcome.status != 200 || outcome.sniffed.None? then Success(v)
    else
      var ext := if outcome.sniffed.value == "jpeg" then "jpg" else outcome.sniffed.value;
      Success(v.(localExt := ext, downloadSuccessful := true))
  }

  /** The download rules: the two errors, when a record counts as downloaded,
      and that only an unknown extension is ever filled in (with "jpg" for a
      sniffed "jpeg"); nothing else in the record changes. */
  lemma DownloadedSpec(v: ImageUrl, localDir: string, outcome: FetchOutcome)
    ensures Downloaded(v, localDir, outcome) == Failure(EmptyLocalDir) <==> localDir == []
    ensures Downloaded(v, localDir, outcome) == Failure(NoLocalBasename) <==> localDir != [] && v.localBasename == []
    ensures Downloaded(v, localDir, outcome).Success? ==>
              var w := Downloaded(v, localDir, outcome).value;
              && w.url == v.url && w.passesFilters == v.passesFilters
              && w.originalFilename == v.originalFilename && w.localBasename == v.localBasename
              && w.fileOccurrences == v.fileOccurrences
              && (w.downloadSuccessful <==>
                    v.downloadSuccessful
                    || (outcome.status == 200 && (v.localExt != [] || outcome.sniffed.Some?)))
              && (v.localExt != [] ==> w.localExt == v.localExt)
              && (v.localExt == [] && !(outcome.status == 200 && outcome.sniffed.Some?) ==> w.localExt == [])
              && (v.localExt == [] && outcome.status == 200 && outcome.sniffed.Some? ==>
                    w.localExt == (if outcome.sniffed.value == "jpeg" then "jpg" else outcome.sniffed.value))
  {
  }

  class ImageUrlRecord {
    var url: string
    var passesFilters: bool
    var originalFilename: string
    var localBasename: string
    var localExt: string
    var downloadSuccessful: bool
    var fileOccurrences: seq<FileOccurrenceRecord>

    function Value(): ImageUrl
      reads this
    {
      ImageUrl(url, passesFilters, originalFilename, localBasename, localExt, downloadSuccessful, fileOccurrences)
    }

    /** A record as the analysis first creates it: no local name yet, not
        downloaded, no occurrences. */
    constructor (url: string, passesFilters: bool, originalFilename: string)
      ensures Value() == ImageUrl(url, passesFilters, originalFilename, "", "", false, [])
    {
      this.url := url;
      this.passesFilters := passesFilters;
      this.originalFilename := originalFilename;
      localBasename := "";
      localExt := "";
      downloadSuccessful := false;
      fileOccurrences := [];
    }

    /** `get_file_occurrence`: scans the occurrences in order. */
    method GetFileOccurrence(filepath: string) returns (r: Option<nat>)
      ensures r == OccurrenceIndex(fileOccurrences, filepath)
    {
      var i := 0;
      while i < |fileOccurrences|
        invariant 0 <= i <= |fileOccurrences|
        invariant forall j :: 0 <= j < i ==> fileOccurrences[j].filepath != filepath
      {
        if fileOccurrences[i].filepath == filepath {
          OccurrenceIndexIsFirst(fileOccurrences, filepath, i);
          return Some(i);
        }
        i := i + 1;
      }
      return None;
    }

    /** `download(local_dir)` with the fetch replaced by its outcome. */
    method Download(localDir: string, outcome: FetchOutcome) returns (err: Option<DownloadError>)
      modifies this
      ensures Downloaded(old(Value()), localDir, outcome).Failure? ==>
                err == Some(Downloaded(old(Value()), localDir, outcome).error) && Value() == old(Value())
      ensures Downloaded(old(Value()), localDir, outcome).Success? ==>
                err == None && Value() == Downloaded(old(Value()), localDir, outcome).value
    {
      if localDir == [] {
        return Some(EmptyLocalDir);
      }
      if localBasename == [] {
        return Some(NoLocalBasename);
      }
      if localExt != [] {
        if outcome.status != 200 {
          return None;
        }
      } else {
        if outcome.status != 200 {
          return None;
        }
        if outcome.sniffed.None? {
          return None;
        }
        localExt := if outcome.sniffed.value != "jpeg" then outcome.sniffed.value else "jpg";
      }
      downloadSuccessful := true;
      return None;
    }
  }

  /** An index with no earlier occurrence for the same path is the one
      OccurrenceIndex finds. */
  lemma {:induction false} OccurrenceIndexIsFirst(occs: seq<FileOccurrenceRecord>, filepath: string, i: nat)
    requires i < |occs| && occs[i].filepath == filepath
    requires forall j :: 0 <= j < i ==> occs[j].filepath != filepath
    ensures OccurrenceIndex(occs, filepath) == Some(i)
    decreases i
  {
    if i > 0 {
      OccurrenceIndexIsFirst(occs[1..], filepath, i - 1);
    }
  }
}
