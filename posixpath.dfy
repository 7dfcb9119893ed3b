/** `os.path.join` (two arguments) and `os.path.basename` as the POSIX flavour of Python defines them. */
module PosixPath {
  import opened PyStrings

  /**
   * `os.path.join(a, b)`: an absolute `b` replaces `a`; otherwise `b` is appended,
   * with a `/` in between unless `a` is empty or already ends with one.
   */
  function Join(a: string, b: string): string
  {
    if StartsWith(b, "/") then b
    else if a == [] || a[|a| - 1] == '/' then a + b
    else a + "/" + b
  }

  /** `os.path.basename(p)`: the text after the last `/`. */
  function Basename(p: string): (name: string)
    ensures '/' !in name
    ensures |name| <= |p| && p[|p| - |name|..] == name
    ensures |name| == |p| || p[|p| - |name| - 1] == '/'
    decreases |p|
  {
    if p == [] then []
    else if p[|p| - 1] == '/' then []
    else
      var last := p[|p| - 1];
      var init := Basename(p[..|p| - 1]);
      assert p[..|p| - 1][|p| - 1 - |init|..] == init;
      assert p[|p| - 1 - |init|..] == p[..|p| - 1][|p| - 1 - |init|..] + [last];
      init + [last]
  }

  lemma {:induction false} BasenameWithoutSeparator(p: string)
    requires '/' !in p
    ensures Basename(p) == p
    decreases |p|
  {
    if p != [] {
      BasenameWithoutSeparator(p[..|p| - 1]);
      assert p == p[..|p| - 1] + [p[|p| - 1]];
    }
  }

  lemma {:induction false} BasenameAfterSeparator(d: string, name: string)
    requires '/' !in name
    ensures Basename(d + "/" + name) == name
    decreases |name|
  {
    var p := d + "/" + name;
    if name != [] {
      var init := name[..|name| - 1];
      assert p[..|p| - 1] == d + "/" + init;
      BasenameAfterSeparator(d, init);
      assert name == init + [name[|name| - 1]];
    }
  }

  /** The base name of a joined path is the name that was joined on, when it has no `/`. */
  lemma BasenameOfJoin(dir: string, name: string)
    requires '/' !in name
    ensures Basename(Join(dir, name)) == name
  {
    assert !StartsWith(name, "/") by {
      if |name| >= 1 { assert name[0] in name; }
    }
    if dir == [] {
      assert Join(dir, name) == name;
      BasenameWithoutSeparator(name);
    } else if dir[|dir| - 1] == '/' {
      var d := dir[..|dir| - 1];
      assert dir == d + "/";
      assert Join(dir, name) == d + "/" + name;
      BasenameAfterSeparator(d, name);
    } else {
      assert Join(dir, name) == dir + "/" + name;
      BasenameAfterSeparator(dir, name);
    }
  }

  /** The common case: a relative name joined onto a directory without a trailing `/`. */
  lemma JoinWithSeparator(dir: string, name: string)
    requires dir != [] && dir[|dir| - 1] != '/'
    requires name == [] || name[0] != '/'
    ensures Join(dir, name) == dir + "/" + name
  {
    if |name| >= 1 {
      assert name[..1][0] == name[0];
    }
  }

  /** A relative name is joined below its directory: the directory is a prefix of the result. */
  lemma JoinExtendsDirectory(dir: string, name: string)
    requires !StartsWith(name, "/")
    ensures StartsWith(Join(dir, name), dir)
    ensures Join(dir, name) == dir + name || Join(dir, name) == dir + "/" + name
  {
    assert (dir + name)[..|dir|] == dir;
    assert (dir + "/" + name)[..|dir|] == dir;
  }
}
