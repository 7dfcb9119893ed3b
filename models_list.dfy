/**
 * The ModelsListNode: the immediate sub-directories of the host's models
 * directory, sorted, or a reason why there are none to show.
 */
module ModelsList {
  import opened Wrappers
  import opened FileSystem
  import opened PosixPath
  import opened TextOrder
  import Sorting

  datatype ListOutcome =
    | ModelsDirMissing(path: string)
    | NoDirectories
    | Listed(path: string, directories: seq<string>, count: nat)
    | ListingFailed

  /** The entries of `items` that are directories below `dir`, kept in listing order. */
  function DirectoryEntries(fs: Snapshot, dir: string, items: seq<string>): (dirs: seq<string>)
    ensures forall x :: x in dirs <==> x in items && IsDir(fs, Join(dir, x))
    decreases |items|
  {
    if items == [] then []
    else
      var init := DirectoryEntries(fs, dir, items[..|items| - 1]);
      var last := items[|items| - 1];
      assert items == items[..|items| - 1] + [last];
      if IsDir(fs, Join(dir, last)) then init + [last] else init
  }

  /**
   * `list_models`: a missing models directory and an unreadable one are reported as such;
   * otherwise the directory entries, sorted ascending, with their count, or NoDirectories
   * when there are none.
   */
  method ListModels(fs: Snapshot, modelsPath: string) returns (r: ListOutcome)
    ensures !Exists(fs, modelsPath) ==> r == ModelsDirMissing(modelsPath)
    ensures Exists(fs, modelsPath) && ListDir(fs, modelsPath).None? ==> r == ListingFailed
    ensures Exists(fs, modelsPath) && ListDir(fs, modelsPath).Some? ==>
              var dirs := DirectoryEntries(fs, modelsPath, ListDir(fs, modelsPath).value);
              (r == NoDirectories <==> dirs == []) &&
              (r.Listed? <==> dirs != []) &&
              (r.Listed? ==> r.path == modelsPath && Sorted(r.directories) &&
                             multiset(r.directories) == multiset(dirs) &&
                             r.count == |r.directories| == |dirs|)
  {
    if !Exists(fs, modelsPath) {
      return ModelsDirMissing(modelsPath);
    }
    var listing := ListDir(fs, modelsPath);
    if listing.None? {
      return ListingFailed;
    }
    var items := listing.value;
    var directories: seq<string> := [];
    var i := 0;
    while i < |items|
      invariant 0 <= i <= |items|
      invariant directories == DirectoryEntries(fs, modelsPath, items[..i])
    {
      var item := items[i];
      var itemPath := Join(modelsPath, item);
      if IsDir(fs, itemPath) {
        directories := directories + [item];
      }
      assert items[..i + 1][..i] == items[..i];
      i := i + 1;
    }
    assert items[..|items|] == items;
    var a := new string[|directories|](k requires 0 <= k < |directories| => directories[k]);
    assert a[..] == directories;
    Sorting.SortInPlace(a);
    var sorted := a[..];
    assert |sorted| == |multiset(sorted)| == |multiset(directories)| == |directories|;
    if |sorted| == 0 {
      return NoDirectories;
    }
    r := Listed(modelsPath, sorted, |sorted|);
  }

  lemma DirectoryEntriesSnoc(fs: Snapshot, dir: string, items: seq<string>, x: string)
    ensures DirectoryEntries(fs, dir, items + [x])
         == DirectoryEntries(fs, dir, items) + (if IsDir(fs, Join(dir, x)) then [x] else [])
  {
    assert (items + [x])[..|items|] == items;
  }

  /** A models directory `/m` holding sub-directories `b` and `a` and files `z.txt` and `y.txt`. */
  predicate ExampleModels(fs: Snapshot)
  {
    ListDir(fs, "/m") == Some(["b", "z.txt", "a", "y.txt"]) &&
    IsDir(fs, Join("/m", "b")) && IsDir(fs, Join("/m", "a")) &&
    !IsDir(fs, Join("/m", "z.txt")) && !IsDir(fs, Join("/m", "y.txt"))
  }

  lemma ExampleDirectoryEntries(fs: Snapshot)
    requires ExampleModels(fs)
    ensures DirectoryEntries(fs, "/m", ListDir(fs, "/m").value) == ["b", "a"]
  {
    assert DirectoryEntries(fs, "/m", ["b"]) == ["b"] by {
      DirectoryEntriesSnoc(fs, "/m", [], "b");
      assert [] + ["b"] == ["b"];
    }
    assert DirectoryEntries(fs, "/m", ["b", "z.txt"]) == ["b"] by {
      DirectoryEntriesSnoc(fs, "/m", ["b"], "z.txt");
      assert ["b"] + ["z.txt"] == ["b", "z.txt"];
    }
    assert DirectoryEntries(fs, "/m", ["b", "z.txt", "a"]) == ["b", "a"] by {
      DirectoryEntriesSnoc(fs, "/m", ["b", "z.txt"], "a");
      assert ["b", "z.txt"] + ["a"] == ["b", "z.txt", "a"];
    }
    DirectoryEntriesSnoc(fs, "/m", ["b", "z.txt", "a"], "y.txt");
    assert ["b", "z.txt", "a"] + ["y.txt"] == ["b", "z.txt", "a", "y.txt"];
  }

  /**
   * Whatever listing satisfies the contract of ListModels on such a directory, it is
   * exactly ["a", "b"]: the files are dropped and the directories come out in order.
   */
  lemma ExampleListing(fs: Snapshot, r: seq<string>)
    requires ExampleModels(fs)
    requires Sorted(r)
    requires multiset(r) == multiset(DirectoryEntries(fs, "/m", ListDir(fs, "/m").value))
    ensures r == ["a", "b"]
  {
    ExampleDirectoryEntries(fs);
    assert Sorted(["a", "b"]) by { assert LessEq("a", "b"); }
    assert multiset(["b", "a"]) == multiset(["a", "b"]);
    SortedPermutationUnique(r, ["a", "b"]);
  }
}
