/**
  * Unix paths as the raw strings a `PathBuf` holds. The three path
  * operations the core relies on are modelled on the string itself:
  * `push` (joining), `parent`, and comparison with the current directory
  * `"."` (which Rust performs component by component, not byte by byte).
  */
module Paths {
  import opened Wrappers

  type Path = string

  predicate IsAbsolute(p: Path) {
    |p| > 0 && p[0] == '/'
  }

  /** `PathBuf::push`: an absolute fragment replaces the base; otherwise a
      separator is inserted when the base is non-empty and does not already
      end with one. */
  function Push(base: Path, fragment: Path): Path {
    if IsAbsolute(fragment) then fragment
    else if |base| > 0 && base[|base| - 1] != '/' then base + "/" + fragment
    else base + fragment
  }

  /** The path starts with a `.` component (Rust's `include_cur_dir`). */
  predicate HasCurDir(p: Path) {
    !IsAbsolute(p) && |p| > 0 && p[0] == '.' && (|p| == 1 || p[1] == '/')
  }

  /** Length of the part before the first ordinary component: the root `/`
      or a leading `.`. */
  function Floor(p: Path): nat {
    if IsAbsolute(p) || HasCurDir(p) then 1 else 0
  }

  /** Drops trailing separators and trailing `.` components above `floor`,
      as `Components::trim_right` does. */
  function TrimTrailing(s: Path, floor: nat): (r: Path)
    ensures |r| <= |s| && r == s[..|r|]
    decreases |s|
  {
    if |s| <= floor then s
    else if s[|s| - 1] == '/' then TrimTrailing(s[..|s| - 1], floor)
    else if s[|s| - 1] == '.' && (|s| - 1 == floor || s[|s| - 2] == '/') then TrimTrailing(s[..|s| - 1], floor)
    else s
  }

  /** Drops the characters of the last component above `floor`. */
  function DropLastSegment(s: Path, floor: nat): (r: Path)
    ensures |r| <= |s| && r == s[..|r|]
    decreases |s|
  {
    if |s| <= floor || s[|s| - 1] == '/' then s
    else DropLastSegment(s[..|s| - 1], floor)
  }

  /** `Path::parent`: `None` for the empty path and for a bare root;
      otherwise the path without its last component (a bare `.` has the
      empty path as parent). */
  function Parent(p: Path): Option<Path> {
    var floor := Floor(p);
    var t := TrimTrailing(p, floor);
    if |t| <= floor then
      (if HasCurDir(p) then Some("") else None)
    else
      Some(TrimTrailing(DropLastSegment(t, floor), floor))
  }

  /** `p == PathBuf::from(".")`: Rust compares paths by components, so this
      holds for `.`, `./`, `./.` and the like. */
  predicate IsCurDir(p: Path) {
    HasCurDir(p) && |TrimTrailing(p, 1)| <= 1
  }

  /** A path with no trailing separator or `.` component to trim. */
  predicate Trimmed(p: Path) {
    TrimTrailing(p, Floor(p)) == p
  }

  /** A single ordinary file name, as `DirEntry::file_name` yields. */
  predicate IsFileName(name: string) {
    |name| > 0 && name != "." && '/' !in name
  }

  lemma PushAbsolute(base: Path, fragment: Path)
    requires IsAbsolute(fragment)
    ensures Push(base, fragment) == fragment
  {
  }

  /** Pushing a relative fragment keeps the base as a prefix and the fragment
      as a suffix, with one separator between them exactly when the base is
      non-empty and does not already end in one. */
  lemma PushRelative(base: Path, fragment: Path)
    requires !IsAbsolute(fragment)
    ensures var r := Push(base, fragment);
      && |base| <= |r| && r[..|base|] == base
      && |fragment| <= |r| && r[|r| - |fragment|..] == fragment
      && (|r| == |base| + |fragment| || (|r| == |base| + |fragment| + 1 && r[|base|] == '/'))
      && (|r| == |base| + |fragment| + 1 <==> |base| > 0 && base[|base| - 1] != '/')
  {
  }

  /** Pushing in two steps is pushing the joined fragment in one. */
  lemma PushAssociative(a: Path, b: Path, c: Path)
    ensures Push(Push(a, b), c) == Push(a, Push(b, c))
  {
    if IsAbsolute(c) {
    } else if IsAbsolute(b) {
      assert IsAbsolute(Push(b, c));
    } else if |b| == 0 {
      assert Push(b, c) == c;
      if |a| > 0 && a[|a| - 1] != '/' {
        assert Push(a, b) == a + "/";
      } else {
        assert Push(a, b) == a;
      }
    } else {
      var ab := Push(a, b);
      var bc := Push(b, c);
      assert bc[0] == b[0];
      assert ab[|ab| - 1] == b[|b| - 1];
      if b[|b| - 1] != '/' {
        assert bc == b + "/" + c;
        assert Push(ab, c) == ab + "/" + c;
      } else {
        assert bc == b + c;
        assert Push(ab, c) == ab + c;
      }
    }
  }

  lemma TrimTrailingIdle(s: Path, floor: nat)
    requires |s| <= floor || (s[|s| - 1] != '/' && !(s[|s| - 1] == '.' && (|s| - 1 == floor || s[|s| - 2] == '/')))
    ensures TrimTrailing(s, floor) == s
  {
  }

  lemma {:induction false} DropSegmentOfName(d: Path, name: string, floor: nat)
    requires '/' !in name && floor <= |d| + 1
    ensures DropLastSegment(d + "/" + name, floor) == d + "/"
    decreases |name|
  {
    var s := d + "/" + name;
    if |name| > 0 {
      assert s[|s| - 1] == name[|name| - 1];
      assert s[..|s| - 1] == d + "/" + name[..|name| - 1];
      DropSegmentOfName(d, name[..|name| - 1], floor);
    } else {
      assert s == d + "/";
    }
  }

  /** Parent undoes pushing a file name onto a trimmed directory. */
  lemma ParentOfPush(dir: Path, name: string)
    requires Trimmed(dir) && IsFileName(name)
    ensures Parent(Push(dir, name)) == Some(dir)
  {
    if |dir| == 0 {
      ParentOfBareName(name);
    } else if dir == "/" {
      ParentOfRootedName(name);
    } else {
      ParentOfJoined(dir, name);
    }
  }

  /** The last character of a file name is never trimmed away. */
  lemma FileNameEndIdle(d: Path, name: string, floor: nat)
    requires IsFileName(name) && floor <= |d| + 1
    ensures TrimTrailing(d + "/" + name, floor) == d + "/" + name
  {
    var p := d + "/" + name;
    assert p[|p| - 1] == name[|name| - 1];
    assert name[|name| - 1] in name;
    FileNameNotDot(name);
    assert name[|name| - 1] == '.' ==> |name| > 1 && name[|name| - 2] != '/' && p[|p| - 2] == name[|name| - 2] by {
      if name[|name| - 1] == '.' {
        assert name[|name| - 2] in name;
      }
    }
    TrimTrailingIdle(p, floor);
  }

  lemma FileNameNotDot(name: string)
    requires IsFileName(name)
    ensures |name| == 1 ==> name[0] != '.'
  {
    if |name| == 1 {
      assert name == [name[0]];
    }
  }

  lemma ParentOfBareName(name: string)
    requires IsFileName(name)
    ensures Parent(Push("", name)) == Some("")
  {
    var p := Push("", name);
    assert p == name;
    FileNameNotDot(name);
    assert Floor(p) == 0;
    assert TrimTrailing(p, 0) == p by {
      assert p[|p| - 1] == name[|name| - 1] && name[|name| - 1] in name;
      if p[|p| - 1] == '.' {
        assert name[|name| - 2] in name;
      }
    }
    DropToEmpty(name);
  }

  lemma ParentOfRootedName(name: string)
    requires IsFileName(name)
    ensures Parent(Push("/", name)) == Some("/")
  {
    var p := Push("/", name);
    assert p == "" + "/" + name;
    assert Floor(p) == 1;
    FileNameEndIdle("", name, 1);
    DropSegmentOfName("", name, 1);
  }

  lemma ParentOfJoined(dir: Path, name: string)
    requires Trimmed(dir) && IsFileName(name) && |dir| > 0 && dir != "/"
    ensures Parent(Push(dir, name)) == Some(dir)
  {
    var p := Push(dir, name);
    assert dir[|dir| - 1] != '/' by {
      if |dir| > Floor(dir) {
        assert |TrimTrailing(dir[..|dir| - 1], Floor(dir))| < |dir|;
      } else {
        assert dir == [dir[0]];
      }
    }
    assert p == dir + "/" + name;
    assert Floor(p) == Floor(dir) by {
      if |dir| == 1 && dir[0] == '.' { assert p[1] == '/'; }
      if |dir| > 1 { assert p[..2] == dir[..2]; }
    }
    var floor := Floor(p);
    FileNameEndIdle(dir, name, floor);
    DropSegmentOfName(dir, name, floor);
    var s := dir + "/";
    assert s[..|s| - 1] == dir;
    assert TrimTrailing(s, floor) == TrimTrailing(dir, floor);
  }

  lemma {:induction false} DropToEmpty(name: string)
    requires '/' !in name
    ensures DropLastSegment(name, 0) == ""
    decreases |name|
  {
    if |name| > 0 {
      assert name[|name| - 1] in name;
      var init := name[..|name| - 1];
      forall i | 0 <= i < |init| ensures init[i] != '/' {
        assert init[i] == name[i] && name[i] in name;
      }
      DropToEmpty(init);
    }
  }

  /** The paths that compare equal to `.` are exactly those whose only
      component is the current directory. */
  lemma CurDirExamples()
    ensures IsCurDir(".") && IsCurDir("./") && IsCurDir("./.")
    ensures !IsCurDir("") && !IsCurDir("..") && !IsCurDir("./a") && !IsCurDir("/")
  {
    assert TrimTrailing("./", 1) == TrimTrailing(".", 1);
    assert "./."[..2] == "./";
    assert TrimTrailing("./.", 1) == TrimTrailing("./", 1);
    assert TrimTrailing("./a", 1) == "./a";
  }

  /** The empty path and a bare root have no parent; a single name has the
      empty path as parent. */
  lemma ParentExamples()
    ensures Parent("") == None && Parent("/") == None && Parent(".") == Some("")
  {
  }

  lemma ParentOfFileExamples()
    ensures Parent("index.html") == Some("")
    ensures Parent("blog/post.html") == Some("blog")
  {
    ParentOfTopLevelFile();
    ParentOfNestedFile();
  }

  lemma ParentOfTopLevelFile()
    ensures Parent("index.html") == Some("")
  {
    assert IsFileName("index.html") by { assert "index.html"[0] != '/'; }
    ParentOfPush("", "index.html");
    assert Push("", "index.html") == "index.html";
  }

  lemma ParentOfNestedFile()
    ensures Parent("blog/post.html") == Some("blog")
  {
    assert TrimTrailing("blog", 0) == "blog";
    assert IsFileName("post.html");
    ParentOfPush("blog", "post.html");
    assert Push("blog", "post.html") == "blog/post.html";
  }
}
