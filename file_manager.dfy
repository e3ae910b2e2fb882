/** FileManager.get_files_by_extension: for each extension, normalised to start
    with '.', glob the pattern "*" + ext inside the directory and collect the matches, then
    sort the whole list. The directory is given by its listing (the names of its
    entries, in the order the file system yields them). */
module FileManager {
  import opened Text

  /** An extension without a leading '.' gets one; any other is kept as it is. */
  function NormaliseExtension(ext: string): (r: string)
    ensures |r| >= 1 && r[0] == '.'
    ensures |ext| >= 1 && ext[0] == '.' ==> r == ext
    ensures !(|ext| >= 1 && ext[0] == '.') ==> r == "." + ext
  {
    if |ext| >= 1 && ext[0] == '.' then ext else "." + ext
  }

  /** Normalising twice is normalising once, and "mp4" and ".mp4" name the same
      pattern. */
  lemma NormaliseIdempotent(ext: string)
    ensures NormaliseExtension(NormaliseExtension(ext)) == NormaliseExtension(ext)
    ensures NormaliseExtension("." + ext) == NormaliseExtension(ext) <==> !(|ext| >= 1 && ext[0] == '.')
  {
    if |ext| >= 1 && ext[0] == '.' {
      assert |"." + ext| != |ext|;
    }
  }

  /** Whether an entry matches the glob pattern "*" + ext, where ext holds no glob
      metacharacter: the name ends with ext, and, as glob skips hidden entries for
      a pattern that does not itself start with '.', it does not start with '.'. */
  predicate Matches(name: string, ext: string)
  {
    |name| > 0 && name[0] != '.' && EndsWith(name, ext)
  }

  /** glob.glob(os.path.join(directory, "*" + ext)): the matching entries,
      joined onto the directory, in listing order. */
  function GlobMatches(directory: string, listing: seq<string>, ext: string): seq<string>
    decreases |listing|
  {
    if listing == [] then []
    else
      var head := if Matches(listing[0], ext) then [Join(directory, listing[0])] else [];
      head + GlobMatches(directory, listing[1..], ext)
  }

  /** The unsorted list: the matches of each normalised extension in turn,
      concatenated without removing repeats. */
  function ConcatMatches(directory: string, listing: seq<string>, extensions: seq<string>): seq<string>
    decreases |extensions|
  {
    if extensions == [] then []
    else
      var last := NormaliseExtension(extensions[|extensions| - 1]);
      ConcatMatches(directory, listing, extensions[..|extensions| - 1]) + GlobMatches(directory, listing, last)
  }

  /** What the scan returns for a listing and a list of extensions. */
  function ScanResult(directory: string, listing: seq<string>, extensions: seq<string>): seq<string>
  {
    SortStrings(ConcatMatches(directory, listing, extensions))
  }

  /** p is the directory joined with an entry matching ext. */
  predicate Globbed(directory: string, listing: seq<string>, ext: string, p: string)
  {
    exists i :: 0 <= i < |listing| && Matches(listing[i], ext) && p == Join(directory, listing[i])
  }

  /** p is found by the scan: it is the directory joined with an entry that
      matches one of the normalised extensions. */
  predicate Found(directory: string, listing: seq<string>, extensions: seq<string>, p: string)
  {
    exists k :: 0 <= k < |extensions| && Globbed(directory, listing, NormaliseExtension(extensions[k]), p)
  }

  method GetFilesByExtension(directory: string, listing: seq<string>, extensions: seq<string>)
    returns (files: seq<string>)
    ensures files == ScanResult(directory, listing, extensions)
    ensures Sorted(files)
    ensures forall p :: p in files <==> Found(directory, listing, extensions, p)
    ensures extensions == [] ==> files == []
  {
    var found: seq<string> := [];
    for k := 0 to |extensions|
      invariant found == ConcatMatches(directory, listing, extensions[..k])
    {
      var ext := extensions[k];
      if !(|ext| >= 1 && ext[0] == '.') {
        ext := "." + ext;
      }
      assert extensions[..k + 1][..k] == extensions[..k];
      found := found + GlobMatches(directory, listing, ext);
    }
    assert extensions[..|extensions|] == extensions;
    files := SortStrings(found);
    forall p
      ensures p in files <==> Found(directory, listing, extensions, p)
    {
      assert p in files <==> p in found by {
        assert p in multiset(files) <==> p in multiset(found);
      }
      ConcatMatchesMembers(directory, listing, extensions, p);
    }
  }

  /** Membership in one glob: exactly the joined matching entries. */
  lemma {:induction false} GlobMatchesMembers(directory: string, listing: seq<string>, ext: string, p: string)
    ensures p in GlobMatches(directory, listing, ext) <==> Globbed(directory, listing, ext, p)
    decreases |listing|
  {
    if listing != [] {
      GlobMatchesMembers(directory, listing[1..], ext, p);
      if Globbed(directory, listing, ext, p) {
        var i :| 0 <= i < |listing| && Matches(listing[i], ext) && p == Join(directory, listing[i]);
        if i > 0 {
          assert listing[1..][i - 1] == listing[i];
        }
      }
      if Globbed(directory, listing[1..], ext, p) {
        var i :| 0 <= i < |listing[1..]| && Matches(listing[1..][i], ext) && p == Join(directory, listing[1..][i]);
        assert listing[i + 1] == listing[1..][i];
      }
    }
  }

  /** Membership in the concatenation: found by some extension's glob. */
  lemma ConcatMatchesMembers(directory: string, listing: seq<string>, extensions: seq<string>, p: string)
    ensures p in ConcatMatches(directory, listing, extensions) <==> Found(directory, listing, extensions, p)
  {
    if p in ConcatMatches(directory, listing, extensions) {
      InSomeGlob(directory, listing, extensions, p);
      var k :| 0 <= k < |extensions| && p in GlobMatches(directory, listing, NormaliseExtension(extensions[k]));
      GlobMatchesMembers(directory, listing, NormaliseExtension(extensions[k]), p);
      FoundAt(directory, listing, extensions, k, p);
    }
    if Found(directory, listing, extensions, p) {
      var k :| 0 <= k < |extensions| && Globbed(directory, listing, NormaliseExtension(extensions[k]), p);
      GlobMatchesMembers(directory, listing, NormaliseExtension(extensions[k]), p);
      InConcat(directory, listing, extensions, k, p);
    }
  }

  /** Whatever the concatenation holds, some extension's glob holds. */
  lemma {:induction false} InSomeGlob(directory: string, listing: seq<string>, extensions: seq<string>, p: string)
    requires p in ConcatMatches(directory, listing, extensions)
    ensures exists k :: 0 <= k < |extensions| && p in GlobMatches(directory, listing, NormaliseExtension(extensions[k]))
    decreases |extensions|
  {
    var n := |extensions|;
    var front := extensions[..n - 1];
    var last := NormaliseExtension(extensions[n - 1]);
    assert ConcatMatches(directory, listing, extensions)
      == ConcatMatches(directory, listing, front) + GlobMatches(directory, listing, last);
    if p in ConcatMatches(directory, listing, front) {
      InSomeGlob(directory, listing, front, p);
      var k :| 0 <= k < |front| && p in GlobMatches(directory, listing, NormaliseExtension(front[k]));
      assert extensions[k] == front[k];
    } else {
      assert p in GlobMatches(directory, listing, NormaliseExtension(extensions[n - 1]));
    }
  }

  /** What the glob of the extension at k holds, the concatenation holds. */
  lemma {:induction false} InConcat(directory: string, listing: seq<string>, extensions: seq<string>, k: nat, p: string)
    requires k < |extensions| && p in GlobMatches(directory, listing, NormaliseExtension(extensions[k]))
    ensures p in ConcatMatches(directory, listing, extensions)
    decreases |extensions|
  {
    var n := |extensions|;
    var front := extensions[..n - 1];
    var last := NormaliseExtension(extensions[n - 1]);
    assert ConcatMatches(directory, listing, extensions)
      == ConcatMatches(directory, listing, front) + GlobMatches(directory, listing, last);
    if k < n - 1 {
      assert front[k] == extensions[k];
      InConcat(directory, listing, front, k, p);
    } else {
      assert extensions[k] == extensions[n - 1];
    }
  }

  /** The extension at k finding p is enough. */
  lemma FoundAt(directory: string, listing: seq<string>, extensions: seq<string>, k: nat, p: string)
    requires k < |extensions| && Globbed(directory, listing, NormaliseExtension(extensions[k]), p)
    ensures Found(directory, listing, extensions, p)
  {
  }

  /** Every path found lies directly in the directory and ends with one of the
      normalised extensions. */
  lemma FoundPathShape(directory: string, listing: seq<string>, extensions: seq<string>, p: string)
    requires Found(directory, listing, extensions, p)
    ensures exists i :: 0 <= i < |listing| && p == Join(directory, listing[i])
    ensures exists k :: 0 <= k < |extensions| && EndsWith(p, NormaliseExtension(extensions[k]))
  {
    var k :| 0 <= k < |extensions| && Globbed(directory, listing, NormaliseExtension(extensions[k]), p);
    var i :| 0 <= i < |listing| && Matches(listing[i], NormaliseExtension(extensions[k])) && p == Join(directory, listing[i]);
    JoinEndsWithName(directory, listing[i]);
    EndsWithTransitive(p, listing[i], NormaliseExtension(extensions[k]));
  }

  /** The number of entries matching ext, counted independently of the glob. */
  function MatchCount(listing: seq<string>, ext: string): nat
    decreases |listing|
  {
    if listing == [] then 0
    else MatchCount(listing[..|listing| - 1], ext) + (if Matches(listing[|listing| - 1], ext) then 1 else 0)
  }

  /** The sum over the extensions of their match counts. */
  function TotalMatchCount(listing: seq<string>, extensions: seq<string>): nat
    decreases |extensions|
  {
    if extensions == [] then 0
    else
      var last := NormaliseExtension(extensions[|extensions| - 1]);
      TotalMatchCount(listing, extensions[..|extensions| - 1]) + MatchCount(listing, last)
  }

  lemma {:induction false} GlobMatchesLength(directory: string, listing: seq<string>, ext: string)
    ensures |GlobMatches(directory, listing, ext)| == MatchCount(listing, ext)
    decreases |listing|
  {
    if listing != [] {
      var n := |listing|;
      GlobMatchesSnoc(directory, listing[..n - 1], listing[n - 1], ext);
      assert listing[..n - 1] + [listing[n - 1]] == listing;
      GlobMatchesLength(directory, listing[..n - 1], ext);
    }
  }

  lemma {:induction false} GlobMatchesSnoc(directory: string, listing: seq<string>, name: string, ext: string)
    ensures GlobMatches(directory, listing + [name], ext)
      == GlobMatches(directory, listing, ext) + (if Matches(name, ext) then [Join(directory, name)] else [])
    decreases |listing|
  {
    if listing == [] {
      assert [name][1..] == [];
    } else {
      assert (listing + [name])[1..] == listing[1..] + [name];
      GlobMatchesSnoc(directory, listing[1..], name, ext);
    }
  }

  /** Matches are not deduplicated: the scan returns as many paths as the
      per-extension match counts add up to. */
  lemma {:induction false} ScanLength(directory: string, listing: seq<string>, extensions: seq<string>)
    ensures |ScanResult(directory, listing, extensions)| == TotalMatchCount(listing, extensions)
    decreases |extensions|
  {
    var all := ConcatMatches(directory, listing, extensions);
    assert |SortStrings(all)| == |all| by {
      assert |multiset(SortStrings(all))| == |multiset(all)|;
    }
    ConcatLength(directory, listing, extensions);
  }

  lemma {:induction false} ConcatLength(directory: string, listing: seq<string>, extensions: seq<string>)
    ensures |ConcatMatches(directory, listing, extensions)| == TotalMatchCount(listing, extensions)
    decreases |extensions|
  {
    if extensions != [] {
      ConcatLength(directory, listing, extensions[..|extensions| - 1]);
      GlobMatchesLength(directory, listing, NormaliseExtension(extensions[|extensions| - 1]));
    }
  }

  /** Giving one extension twice, with or without its dot, returns each of its
      matches twice. */
  lemma RepeatedExtensionRepeatsMatches(directory: string, listing: seq<string>, ext: string)
    requires !(|ext| >= 1 && ext[0] == '.')
    ensures var files := ScanResult(directory, listing, [ext, "." + ext]);
      && multiset(files) == multiset(GlobMatches(directory, listing, "." + ext)) + multiset(GlobMatches(directory, listing, "." + ext))
      && |files| == 2 * MatchCount(listing, "." + ext)
  {
    var dotted := "." + ext;
    var twice := [ext, dotted];
    var matches := GlobMatches(directory, listing, dotted);
    assert NormaliseExtension(ext) == dotted;
    assert NormaliseExtension(dotted) == dotted;
    assert twice[..1] == [ext];
    assert [ext][..0] == [];
    assert ConcatMatches(directory, listing, [ext]) == matches;
    assert ConcatMatches(directory, listing, twice) == matches + matches;
    var files := ScanResult(directory, listing, twice);
    assert multiset(files) == multiset(matches + matches);
    assert |files| == |matches + matches| by {
      assert |multiset(files)| == |multiset(matches + matches)|;
    }
    GlobMatchesLength(directory, listing, dotted);
  }

  /** One unfolding of the glob on a listing with a given first entry. */
  lemma GlobFirst(directory: string, name: string, rest: seq<string>, ext: string)
    ensures GlobMatches(directory, [name] + rest, ext)
      == (if Matches(name, ext) then [Join(directory, name)] else []) + GlobMatches(directory, rest, ext)
  {
    assert ([name] + rest)[1..] == rest;
  }

  /** The sample entries: a visible ".mp4", a visible ".mov", a hidden ".mp4"
      and an upper-case ".MP4". */
  lemma SampleMatches()
    ensures Matches("b.mp4", ".mp4") && !Matches("b.mp4", ".mov")
    ensures Matches("a.mov", ".mov") && !Matches("a.mov", ".mp4")
    ensures !Matches(".c.mp4", ".mp4") && !Matches(".c.mp4", ".mov")
    ensures !Matches("d.MP4", ".mp4") && !Matches("d.MP4", ".mov")
  {
    assert "b.mp4"[1..] == ".mp4";
    assert "a.mov"[1..] == ".mov";
    assert "d.MP4"[1..] != ".mp4" && "d.MP4"[1..] != ".mov";
  }

  /** Globbing the sample directory for ".mp4" skips the hidden and the
      upper-case entry. */
  lemma SampleGlobMp4()
    ensures GlobMatches("in", ["b.mp4", "a.mov", ".c.mp4", "d.MP4"], ".mp4") == ["in/b.mp4"]
  {
    SampleMatches();
    GlobFirst("in", "d.MP4", [], ".mp4");
    assert ["d.MP4"] == ["d.MP4"] + [];
    GlobFirst("in", ".c.mp4", ["d.MP4"], ".mp4");
    assert [".c.mp4", "d.MP4"] == [".c.mp4"] + ["d.MP4"];
    GlobFirst("in", "a.mov", [".c.mp4", "d.MP4"], ".mp4");
    assert ["a.mov", ".c.mp4", "d.MP4"] == ["a.mov"] + [".c.mp4", "d.MP4"];
    GlobFirst("in", "b.mp4", ["a.mov", ".c.mp4", "d.MP4"], ".mp4");
    assert ["b.mp4", "a.mov", ".c.mp4", "d.MP4"] == ["b.mp4"] + ["a.mov", ".c.mp4", "d.MP4"];
    assert Join("in", "b.mp4") == "in/b.mp4";
  }

  /** Globbing the sample directory for ".mov" finds its one ".mov" entry. */
  lemma SampleGlobMov()
    ensures GlobMatches("in", ["b.mp4", "a.mov", ".c.mp4", "d.MP4"], ".mov") == ["in/a.mov"]
  {
    SampleMatches();
    GlobFirst("in", "d.MP4", [], ".mov");
    assert ["d.MP4"] == ["d.MP4"] + [];
    GlobFirst("in", ".c.mp4", ["d.MP4"], ".mov");
    assert [".c.mp4", "d.MP4"] == [".c.mp4"] + ["d.MP4"];
    GlobFirst("in", "a.mov", [".c.mp4", "d.MP4"], ".mov");
    assert ["a.mov", ".c.mp4", "d.MP4"] == ["a.mov"] + [".c.mp4", "d.MP4"];
    GlobFirst("in", "b.mp4", ["a.mov", ".c.mp4", "d.MP4"], ".mov");
    assert ["b.mp4", "a.mov", ".c.mp4", "d.MP4"] == ["b.mp4"] + ["a.mov", ".c.mp4", "d.MP4"];
    assert Join("in", "a.mov") == "in/a.mov";
  }

  /** The scan by two extensions concatenates their globs. */
  lemma ConcatTwo(directory: string, listing: seq<string>, first: string, second: string)
    ensures ConcatMatches(directory, listing, [first, second])
      == GlobMatches(directory, listing, NormaliseExtension(first)) + GlobMatches(directory, listing, NormaliseExtension(second))
  {
    var both := [first, second];
    assert both[..1] == [first];
    assert [first][..0] == [];
    assert ConcatMatches(directory, listing, [first]) == GlobMatches(directory, listing, NormaliseExtension(first));
    assert ConcatMatches(directory, listing, both)
      == ConcatMatches(directory, listing, [first]) + GlobMatches(directory, listing, NormaliseExtension(second));
  }

  /** The sample globs, concatenated in the order of the extensions given. */
  lemma SampleConcat()
    ensures ConcatMatches("in", ["b.mp4", "a.mov", ".c.mp4", "d.MP4"], ["mp4", ".mov"]) == ["in/b.mp4", "in/a.mov"]
  {
    SampleGlobMp4();
    SampleGlobMov();
    ConcatTwo("in", ["b.mp4", "a.mov", ".c.mp4", "d.MP4"], "mp4", ".mov");
  }

  lemma SampleSort()
    ensures SortStrings(["in/b.mp4", "in/a.mov"]) == ["in/a.mov", "in/b.mp4"]
  {
    assert !StrLe("in/b.mp4", "in/a.mov") by {
      StrLeCommonPrefix("in/", "b.mp4", "a.mov");
      assert "in/b.mp4" == "in/" + "b.mp4" && "in/a.mov" == "in/" + "a.mov";
    }
    SortTwoSwaps("in/b.mp4", "in/a.mov");
  }

  /** The scan of a sample directory by "mp4" and ".mov": the hidden entry and the
      upper-case ".MP4" are skipped, and the two matches come back sorted. */
  lemma SampleScan()
    ensures ScanResult("in", ["b.mp4", "a.mov", ".c.mp4", "d.MP4"], ["mp4", ".mov"]) == ["in/a.mov", "in/b.mp4"]
  {
    SampleConcat();
    SampleSort();
  }
}
