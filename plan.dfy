/**
 * `ImageUrlReplacementPlan`: analyses a set of Markdown files, keeps one
 * `ImageUrlRecord` per remote image URL, names each image's local file, and
 * executes the plan by downloading the images and rewriting the files. Every
 * method is proved to follow its definition in module PlanSpec, stated on the
 * ghost field `Records`, which `Valid()` ties to the records' fields. File
 * texts, the parser, the name a URL gives its file, the image directory's
 * listing, the clock and the fetches are parameters.
 */
module ReplacementPlan {
  import opened Wrappers
  import opened Strings
  import opened Sorting
  import opened Markdown
  import opened UrlPattern
  import opened Uniquifier
  import opened Records
  import opened PlanSpec

  class ImageUrlReplacementPlan {
    const mdFilepaths: seq<string>
    const imageDestDir: string
    const markdownDestDir: string
    const urlSubstringFilters: Option<seq<string>>
    /** The records by URL. */
    var imageUrlRecords: map<string, ImageUrlRecord>
    /** The records' fields, by URL. */
    ghost var Records: Store

    /** Each record is stored under its own URL, so no two keys share a
        record, and `Records` holds its fields. */
    ghost predicate Valid()
      reads this, imageUrlRecords.Values
    {
      && imageUrlRecords.Keys == Records.Keys
      && forall u :: u in imageUrlRecords ==> imageUrlRecords[u].url == u && imageUrlRecords[u].Value() == Records[u]
    }

    /** Analyses the files and names the images: `__init__`. */
    constructor (mdFilepaths: seq<string>, imageDestDir: string, markdownDestDir: string,
                 urlSubstringFilters: Option<seq<string>>,
                 disk: map<string, string>, parse: string -> Element, nameOf: string -> string,
                 existingDirContents: seq<string>, clock: nat -> nat)
      requires forall p :: p in mdFilepaths ==> p in disk
      ensures this.mdFilepaths == mdFilepaths && this.imageDestDir == imageDestDir
      ensures this.markdownDestDir == markdownDestDir && this.urlSubstringFilters == urlSubstringFilters
      ensures Valid()
      ensures Records
                == AssignNames(Analysis(SourceAnalyzer(parse, urlSubstringFilters, nameOf), map[], mdFilepaths, disk),
                               ClaimedRoots(existingDirContents), clock)
    {
      this.mdFilepaths := mdFilepaths;
      this.imageDestDir := imageDestDir;
      this.markdownDestDir := markdownDestDir;
      this.urlSubstringFilters := urlSubstringFilters;
      imageUrlRecords := map[];
      Records := map[];
      new;
      GetImageUrlOccurrences(disk, parse, nameOf);
      AssignLocalFilenames(existingDirContents, clock);
    }

    /** `_check_passes_filters`. */
    method CheckPassesFilters(url: string) returns (r: bool)
      ensures r == PassesFilters(urlSubstringFilters, url)
    {
      if urlSubstringFilters.None? || urlSubstringFilters.value == [] {
        return true;
      }
      var filters := urlSubstringFilters.value;
      for i := 0 to |filters|
        invariant forall j :: 0 <= j < i ==> !Occurs(filters[j], url)
      {
        if Occurs(filters[i], url) {
          return true;
        }
      }
      return false;
    }

    /** `_iterate_image_url_records(filtered)`, as the URLs of the records it
        yields. */
    method IterateImageUrlRecords(filtered: bool) returns (r: seq<string>)
      requires Valid()
      ensures r == Iteration(Records, filtered)
      ensures forall u :: u in r ==> u in imageUrlRecords
    {
      var included := set u | u in imageUrlRecords && (!filtered || imageUrlRecords[u].passesFilters);
      assert included == Included(Records, filtered);
      r := SortedSeqOf(included);
    }

    /** `_get_image_url_occurrences`: the files are analysed in order. */
    method GetImageUrlOccurrences(disk: map<string, string>, parse: string -> Element, nameOf: string -> string)
      requires Valid()
      requires forall p :: p in mdFilepaths ==> p in disk
      modifies this, imageUrlRecords.Values
      ensures Valid()
      ensures Records == Analysis(SourceAnalyzer(parse, urlSubstringFilters, nameOf), old(Records), mdFilepaths, disk)
      ensures fresh(imageUrlRecords.Values - old(imageUrlRecords.Values))
      ensures KeepsRecords(old(imageUrlRecords), imageUrlRecords)
    {
      ghost var a := SourceAnalyzer(parse, urlSubstringFilters, nameOf);
      ghost var s0 := Records;
      for i := 0 to |mdFilepaths|
        invariant Valid()
        invariant forall p :: p in mdFilepaths[..i] ==> p in disk
        invariant Records == Analysis(a, s0, mdFilepaths[..i], disk)
        invariant fresh(imageUrlRecords.Values - old(imageUrlRecords.Values))
        invariant KeepsRecords(old(imageUrlRecords), imageUrlRecords)
      {
        var path := mdFilepaths[i];
        ghost var m := imageUrlRecords;
        AddFileOccurrences(path, disk[path], parse, nameOf);
        KeepsRecordsTransitive(old(imageUrlRecords), m, imageUrlRecords);
        assert mdFilepaths[..i + 1][..i] == mdFilepaths[..i];
      }
      assert mdFilepaths[..|mdFilepaths|] == mdFilepaths;
    }

    /** The analysis of one file: each URL it holds as an image destination,
        with its image count and its textual count, appended to its record; a
        record is created for a URL seen for the first time. */
    method AddFileOccurrences(path: string, text: string, parse: string -> Element, nameOf: string -> string)
      requires Valid()
      modifies this, imageUrlRecords.Values
      ensures Valid()
      ensures Records == AddFile(SourceAnalyzer(parse, urlSubstringFilters, nameOf), old(Records), path, text)
      ensures fresh(imageUrlRecords.Values - old(imageUrlRecords.Values))
      ensures KeepsRecords(old(imageUrlRecords), imageUrlRecords)
    {
      ghost var a := SourceAnalyzer(parse, urlSubstringFilters, nameOf);
      ghost var s0 := Records;
      var doc := parse(text);
      var imageUrlCounts := ImageUrlCounts(doc);
      var urls := ImageUrls(doc);
      ImageUrlsSpec(doc);
      var textualCounts := GetTextualCounts(text, urls);
      assert a.imageCounts(text) == imageUrlCounts;
      for i := 0 to |urls|
        invariant Valid()
        invariant Records == AddInTurn(a, s0, path, text, urls, i)
        invariant fresh(imageUrlRecords.Values - old(imageUrlRecords.Values))
        invariant KeepsRecords(old(imageUrlRecords), imageUrlRecords)
      {
        var url := urls[i];
        var numImageElements := imageUrlCounts[url];
        var numExtraTextualOccurrences := (textualCounts[url] as int) - (numImageElements as int);
        assert FileOccurrenceRecord(path, numImageElements, numExtraTextualOccurrences, false) == OccurrenceIn(a, path, text, url);
        ghost var m := imageUrlRecords;
        AddOccurrence(url, FileOccurrenceRecord(path, numImageElements, numExtraTextualOccurrences, false), a, nameOf);
        KeepsRecordsTransitive(old(imageUrlRecords), m, imageUrlRecords);
      }
      AddInTurnAll(a, s0, path, text, urls);
    }

    /** One URL's step of the analysis of a file: its record, created if it is
        new, gets the occurrence appended. */
    method AddOccurrence(url: string, occurrence: FileOccurrenceRecord, ghost a: Analyzer, nameOf: string -> string)
      requires Valid()
      requires a.filters == urlSubstringFilters && a.nameOf == nameOf
      modifies this, imageUrlRecords.Values
      ensures Valid()
      ensures var b := Base(a, old(Records), url);
              Records == old(Records)[url := b.(fileOccurrences := b.fileOccurrences + [occurrence])]
      ensures fresh(imageUrlRecords.Values - old(imageUrlRecords.Values))
      ensures KeepsRecords(old(imageUrlRecords), imageUrlRecords)
    {
      ghost var s0 := Records;
      ghost var m0 := imageUrlRecords;
      if url !in imageUrlRecords {
        CreateRecord(url, a, nameOf);
        KeepsRecordsAdded(m0, url, imageUrlRecords[url]);
      }
      assert KeepsRecords(m0, imageUrlRecords);
      assert fresh(imageUrlRecords.Values - m0.Values);
      ghost var s1 := Records;
      AppendOccurrence(url, occurrence);
      if url !in s0 {
        UpdateTwice(s0, url, s1[url], Records[url]);
      }
    }

    /** A record for a URL seen for the first time: whether it passes the
        filters and the file name the URL gives. */
    method CreateRecord(url: string, ghost a: Analyzer, nameOf: string -> string)
      requires Valid() && url !in imageUrlRecords
      requires a.filters == urlSubstringFilters && a.nameOf == nameOf
      modifies this
      ensures Valid()
      ensures Records == old(Records)[url := NewImageUrl(a, url)]
      ensures url in imageUrlRecords && imageUrlRecords == old(imageUrlRecords)[url := imageUrlRecords[url]]
      ensures fresh(imageUrlRecords[url])
    {
      var passes := CheckPassesFilters(url);
      var created := new ImageUrlRecord(url, passes, nameOf(url));
      imageUrlRecords := imageUrlRecords[url := created];
      Records := Records[url := created.Value()];
    }

    /** `file_occurrences.append`: the occurrence is appended to the record of
        `url`. */
    method AppendOccurrence(url: string, occurrence: FileOccurrenceRecord)
      requires Valid() && url in imageUrlRecords
      modifies this, imageUrlRecords[url]
      ensures Valid() && imageUrlRecords == old(imageUrlRecords)
      ensures Records == old(Records)[url := old(Records)[url].(fileOccurrences := old(Records)[url].fileOccurrences + [occurrence])]
    {
      var rec := imageUrlRecords[url];
      rec.fileOccurrences := rec.fileOccurrences + [occurrence];
      Records := Records[url := rec.Value()];
      RecordUpdated(url);
    }

    /** `_assign_local_filenames`: a transformer seeded with the image
        directory's listing names the filtered-in records in ascending URL
        order; the k-th call reads the clock as `clock(k)`. */
    method AssignLocalFilenames(existingDirContents: seq<string>, clock: nat -> nat)
      requires Valid()
      modifies this, imageUrlRecords.Values
      ensures Valid() && imageUrlRecords == old(imageUrlRecords)
      ensures Records == AssignNames(old(Records), ClaimedRoots(existingDirContents), clock)
    {
      ghost var s0 := Records;
      var order := IterateImageUrlRecords(true);
      var transformer := new LogseqImageFilenameTransformer(existingDirContents);
      ghost var roots := transformer.existingFilenameRoots;
      NameInTurn(transformer, order, clock);
      NamePrefixAll(s0, roots, clock, order);
    }

    /** The loop of `_assign_local_filenames`: the records of `order` are
        named in turn. */
    method NameInTurn(transformer: LogseqImageFilenameTransformer, order: seq<string>, clock: nat -> nat)
      requires Valid() && forall u :: u in order ==> u in imageUrlRecords
      modifies this, transformer, imageUrlRecords.Values
      ensures Valid() && imageUrlRecords == old(imageUrlRecords)
      ensures (Records, transformer.existingFilenameRoots)
                == NamePrefix(old(Records), old(transformer.existingFilenameRoots), order, clock, |order|)
    {
      ghost var s0 := Records;
      ghost var roots := transformer.existingFilenameRoots;
      for k := 0 to |order|
        invariant Valid() && imageUrlRecords == old(imageUrlRecords)
        invariant (Records, transformer.existingFilenameRoots) == NamePrefix(s0, roots, order, clock, k)
      {
        NameRecord(transformer, order[k], clock(k));
      }
    }

    /** One step of `_assign_local_filenames`: the record under `u` gets the
        next uniquified name for its original file name, and its root is
        claimed. */
    method NameRecord(transformer: LogseqImageFilenameTransformer, u: string, t: nat)
      requires Valid() && u in imageUrlRecords
      modifies this, transformer, imageUrlRecords[u]
      ensures Valid() && imageUrlRecords == old(imageUrlRecords)
      ensures var name := UniquifiedFilename(old(transformer.existingFilenameRoots), old(Records)[u].originalFilename, t);
              && transformer.existingFilenameRoots == old(transformer.existingFilenameRoots) + {name.0}
              && Records == old(Records)[u := old(Records)[u].(localBasename := name.0, localExt := name.1)]
    {
      var root, ext := transformer.AssignUniquifiedFilename(imageUrlRecords[u].originalFilename, t);
      SetLocalName(u, root, ext);
    }

    /** The record under `u` gets the local name `root` with extension `ext`. */
    method SetLocalName(u: string, root: string, ext: string)
      requires Valid() && u in imageUrlRecords
      modifies this, imageUrlRecords[u]
      ensures Valid() && imageUrlRecords == old(imageUrlRecords)
      ensures Records == old(Records)[u := old(Records)[u].(localBasename := root, localExt := ext)]
    {
      var rec := imageUrlRecords[u];
      rec.localBasename, rec.localExt := root, ext;
      Records := Records[u := rec.Value()];
      RecordUpdated(u);
    }

    /** `_get_image_url_records_by_file(filtered)`, with each group's records
        given by their URLs: the lists are filled record by record, occurrence
        by occurrence, then sorted, and returned in ascending path order. */
    method GetImageUrlRecordsByFile(filtered: bool) returns (groups: seq<(string, seq<string>)>)
      requires Valid()
      ensures groups == Grouping(Records, filtered)
    {
      var order := IterateImageUrlRecords(filtered);
      var g := map[];
      for k := 0 to |order|
        invariant g == GroupMap(Pairs(Records, order[..k]))
      {
        var u := order[k];
        PairsStep(Records, order, k);
        g := AddToGroups(g, Pairs(Records, order[..k]), u, imageUrlRecords[u].fileOccurrences);
      }
      assert order[..|order|] == order;
      groups := SortedGroups(g);
    }

    /** `execute`: downloads every filtered-in record in ascending URL order,
        stopping at the first error; then rewrites each file of the grouping,
        returning the texts written back. */
    method Execute(fetch: string -> FetchOutcome, disk: map<string, string>)
      returns (err: Option<DownloadError>, newDisk: map<string, string>)
      requires Valid() && PathsOnDisk(Records, disk)
      modifies this, imageUrlRecords.Values
      ensures Valid()
      ensures (Records, err, newDisk) == Execution(old(Records), imageDestDir, markdownDestDir, fetch, disk)
    {
      ghost var s0 := Records;
      var order := IterateImageUrlRecords(true);
      err := DownloadAll(order, fetch);
      if err.Some? {
        return err, disk;
      }
      DownloadsKeepPaths(s0, imageDestDir, fetch, disk);
      GroupingWithin(Records, true, disk);
      var groups := GetImageUrlRecordsByFile(true);
      newDisk := RewriteFiles(groups, disk);
    }

    /** The download loop of `execute`. */
    method DownloadAll(order: seq<string>, fetch: string -> FetchOutcome) returns (err: Option<DownloadError>)
      requires Valid() && forall u :: u in order ==> u in imageUrlRecords
      modifies this, imageUrlRecords.Values
      ensures Valid() && imageUrlRecords == old(imageUrlRecords)
      ensures (Records, err) == DownloadPrefix(old(Records), order, imageDestDir, fetch)
    {
      ghost var s0 := Records;
      for k := 0 to |order|
        invariant Valid() && imageUrlRecords == old(imageUrlRecords)
        invariant forall u :: u in order[..k] ==> u in s0
        invariant (Records, None) == DownloadPrefix(s0, order[..k], imageDestDir, fetch)
      {
        var e := DownloadRecord(order[k], fetch);
        DownloadPrefixStep(s0, order, imageDestDir, fetch, k);
        if e.Some? {
          DownloadPrefixStops(s0, order, imageDestDir, fetch, k + 1);
          return e;
        }
      }
      assert order[..|order|] == order;
      return None;
    }

    /** One record's download, into the image directory. */
    method DownloadRecord(u: string, fetch: string -> FetchOutcome) returns (err: Option<DownloadError>)
      requires Valid() && u in imageUrlRecords
      modifies this, imageUrlRecords[u]
      ensures Valid() && imageUrlRecords == old(imageUrlRecords)
      ensures match Downloaded(old(Records)[u], imageDestDir, fetch(u))
              case Failure(e) => err == Some(e) && Records == old(Records)
              case Success(v) => err == None && Records == old(Records)[u := v]
    {
      var rec := imageUrlRecords[u];
      err := rec.Download(imageDestDir, fetch(rec.url));
      Records := Records[u := rec.Value()];
      RecordUpdated(u);
    }

    /** The rewrite loop of `execute` over the grouping: each group's file is
        read, rewritten and written back. */
    method RewriteFiles(groups: seq<(string, seq<string>)>, disk: map<string, string>) returns (newDisk: map<string, string>)
      requires Valid() && groups == Grouping(Records, true)
      requires forall i :: 0 <= i < |groups| ==> groups[i].0 in disk
      modifies this, imageUrlRecords.Values
      ensures Valid() && imageUrlRecords == old(imageUrlRecords)
      ensures Records == Rewritten(old(Records))
      ensures newDisk == RewriteAll(old(Records), groups, disk, markdownDestDir)
    {
      ghost var s1 := Records;
      MarkedStoreNothing(s1);
      GroupingFits(s1);
      newDisk := RewriteGroups(groups, disk, s1);
      GroupingPaths(s1, true);
    }

    /** The loop over the groups, in order. */
    method RewriteGroups(groups: seq<(string, seq<string>)>, disk: map<string, string>, ghost s1: Store)
      returns (newDisk: map<string, string>)
      requires Valid() && Records == MarkedStore(s1, {})
      requires forall i :: 0 <= i < |groups| ==> groups[i].0 in disk && GroupFits(s1, groups[i].0, groups[i].1)
      modifies this, imageUrlRecords.Values
      ensures Valid() && imageUrlRecords == old(imageUrlRecords)
      ensures newDisk == RewriteAll(s1, groups, disk, markdownDestDir)
      ensures Records == MarkedStore(s1, set i | 0 <= i < |groups| :: groups[i].0)
    {
      newDisk := disk;
      ghost var done: set<string> := {};
      for g := 0 to |groups|
        invariant Valid() && imageUrlRecords == old(imageUrlRecords)
        invariant newDisk == RewriteAll(s1, groups[..g], disk, markdownDestDir)
        invariant done == set i | 0 <= i < g :: groups[i].0
        invariant Records == MarkedStore(s1, done)
      {
        var path := groups[g].0;
        var text := RewriteFile(path, groups[g].1, newDisk[path], s1, done);
        RewriteAllStep(s1, groups, disk, markdownDestDir, g);
        newDisk := newDisk[path := text];
        GroupPathsStep(groups, g);
        done := done + {path};
      }
      assert groups[..|groups|] == groups;
    }

    /** The rewrite of one file: its records, longest URL first, each
        substituted when replaceable. */
    method RewriteFile(path: string, items: seq<string>, text: string, ghost s1: Store, ghost done: set<string>)
      returns (r: string)
      requires Valid()
      requires Records == MarkedStore(s1, done)
      requires GroupFits(s1, path, items)
      modifies this, imageUrlRecords.Values
      ensures Valid() && imageUrlRecords == old(imageUrlRecords)
      ensures r == RewriteText(s1, path, SortByLengthDesc(items), text, markdownDestDir)
      ensures Records == MarkedStore(s1, done + {path})
    {
      var sorted := SortByLengthDesc(items);
      SortByLengthDescMembers(items);
      assert Progress(s1, done, path, sorted[..0]) == MarkedStore(s1, done);
      r := RewriteInTurn(path, sorted, text, s1, done);
      ProgressGroupDone(s1, done, path, sorted);
    }

    /** The loop of the rewrite of one file over its records in order. */
    method RewriteInTurn(path: string, sorted: seq<string>, text: string, ghost s1: Store, ghost done: set<string>)
      returns (r: string)
      requires Valid()
      requires Records == Progress(s1, done, path, [])
      requires forall u :: u in sorted ==> u in s1 && s1[u].passesFilters
      modifies this, imageUrlRecords.Values
      ensures Valid() && imageUrlRecords == old(imageUrlRecords)
      ensures r == RewriteText(s1, path, sorted, text, markdownDestDir)
      ensures Records == Progress(s1, done, path, sorted)
    {
      r := text;
      for j := 0 to |sorted|
        invariant Valid() && imageUrlRecords == old(imageUrlRecords)
        invariant r == RewriteText(s1, path, sorted[..j], text, markdownDestDir)
        invariant Records == Progress(s1, done, path, sorted[..j])
      {
        var u := sorted[j];
        ghost var t := r;
        r := ReplaceInFile(u, path, r);
        RewriteTextStep(s1, done, path, sorted, j, text, markdownDestDir, t, r);
        ProgressStep(s1, done, path, sorted, j);
      }
      assert sorted[..|sorted|] == sorted;
    }

    /** One record's step of the rewrite: its first occurrence in the file is
        looked up and, when the download succeeded and the occurrence is safe,
        every match of the URL's pattern is replaced by the local path and the
        occurrence is marked as replaced. */
    method ReplaceInFile(u: string, path: string, text: string) returns (r: string)
      requires Valid() && u in imageUrlRecords
      modifies this, imageUrlRecords[u]
      ensures Valid() && imageUrlRecords == old(imageUrlRecords)
      ensures Records == old(Records)[u := MarkOne(old(Records)[u], path)]
      ensures r == if Replaceable(old(Records)[u], path)
                   then Substitute(text, u, Replacement(old(Records)[u], markdownDestDir))
                   else text
    {
      var rec := imageUrlRecords[u];
      var index := rec.GetFileOccurrence(path);
      if index.Some? && rec.downloadSuccessful && !rec.fileOccurrences[index.value].ReplacementUnsafe() {
        var replacement := "(" + JoinPath(markdownDestDir, rec.Value().LocalFilename()) + ")";
        r := Substitute(text, rec.url, replacement);
        rec.fileOccurrences := rec.fileOccurrences[index.value := rec.fileOccurrences[index.value].(replaceSuccessful := true)];
      } else {
        r := text;
      }
      Records := Records[u := rec.Value()];
      RecordUpdated(u);
    }
    /** A step that changes the fields of the record under `u`, keeping its
        URL, and no other record keeps the plan valid once `Records` holds the
        record's new fields. */
    twostate lemma RecordUpdated(u: string)
      requires old(Valid())
      requires u in old(imageUrlRecords) && imageUrlRecords == old(imageUrlRecords)
      requires imageUrlRecords[u].url == u
      requires Records == old(Records)[u := imageUrlRecords[u].Value()]
      requires forall o :: o in old(imageUrlRecords.Values) && o != imageUrlRecords[u] ==> unchanged(o)
      ensures Valid()
    {
      forall w | w in imageUrlRecords && w != u
        ensures imageUrlRecords[w].url == w && imageUrlRecords[w].Value() == Records[w]
      {
        var o := imageUrlRecords[w];
        assert o in old(imageUrlRecords.Values);
        assert old(o.url) == w;
      }
    }
  }

  /** The inner loop of `_get_image_url_records_by_file`: the record's URL is
      appended to the list of each path it occurs in, once per occurrence. */
  method AddToGroups(g: map<string, seq<string>>, ghost ps: seq<(string, string)>, u: string, occs: seq<FileOccurrenceRecord>)
    returns (r: map<string, seq<string>>)
    requires g == GroupMap(ps)
    ensures r == GroupMap(ps + PairsOf(u, occs))
  {
    r := g;
    assert ps + PairsOf(u, occs[..0]) == ps;
    for j := 0 to |occs|
      invariant r == GroupMap(ps + PairsOf(u, occs[..j]))
    {
      var p := occs[j].filepath;
      PairsOfAppend(u, occs, j);
      GroupMapAppend(ps + PairsOf(u, occs[..j]), (p, u));
      assert ps + PairsOf(u, occs[..j + 1]) == (ps + PairsOf(u, occs[..j])) + [(p, u)];
      r := r[p := (if p in r then r[p] else []) + [u]];
    }
    assert occs[..|occs|] == occs;
  }

  /** The return of `_get_image_url_records_by_file`: the paths in ascending
      order, each with its list sorted. */
  method SortedGroups(g: map<string, seq<string>>) returns (groups: seq<(string, seq<string>)>)
    ensures groups == GroupList(g)
  {
    var paths := SortedSeqOf(g.Keys);
    groups := GroupItemsOf(g, paths);
  }

  /** The loop building the list of items, in the order of `paths`. */
  method GroupItemsOf(g: map<string, seq<string>>, paths: seq<string>) returns (groups: seq<(string, seq<string>)>)
    requires forall p :: p in paths ==> p in g
    ensures groups == GroupItems(g, paths)
  {
    groups := [];
    for i := 0 to |paths|
      invariant forall p :: p in paths[..i] ==> p in g
      invariant groups == GroupItems(g, paths[..i])
    {
      GroupItemsStep(g, paths, i);
      groups := groups + [(paths[i], SortAscending(g[paths[i]]))];
    }
    assert paths[..|paths|] == paths;
  }

  /** Every URL of `m0` is still mapped to the same record object in `m1`. */
  predicate KeepsRecords(m0: map<string, ImageUrlRecord>, m1: map<string, ImageUrlRecord>) {
    forall u :: u in m0 ==> u in m1 && m1[u] == m0[u]
  }

  /** Adding a new URL keeps every record object and adds exactly one. */
  lemma KeepsRecordsAdded(m: map<string, ImageUrlRecord>, u: string, r: ImageUrlRecord)
    requires u !in m
    ensures KeepsRecords(m, m[u := r])
    ensures m[u := r].Values == m.Values + {r}
  {
    forall x | x in m[u := r].Values ensures x in m.Values + {r} {
      var k :| k in m[u := r] && m[u := r][k] == x;
      if k != u {
        assert m[k] == x;
      }
    }
    forall x | x in m.Values + {r} ensures x in m[u := r].Values {
      if x != r {
        var k :| k in m && m[k] == x;
        assert m[u := r][k] == x;
      } else {
        assert m[u := r][u] == x;
      }
    }
  }

  /** Keeping the records composes. */
  lemma KeepsRecordsTransitive(m0: map<string, ImageUrlRecord>, m1: map<string, ImageUrlRecord>, m2: map<string, ImageUrlRecord>)
    requires KeepsRecords(m0, m1) && KeepsRecords(m1, m2)
    ensures KeepsRecords(m0, m2)
  {
  }

  /** A second update of the same key overrides the first. */
  lemma UpdateTwice(m: Store, k: string, v: ImageUrl, w: ImageUrl)
    ensures m[k := v][k := w] == m[k := w]
  {
  }
}
