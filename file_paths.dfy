/** The parts of `System.IO.Path` the core calls, with the Unix directory
    separator '/'. */
module FilePaths {
  import opened Text

  /** `Path.GetFileName`: the text after the last '/'. */
  function GetFileName(path: string): (name: string)
    ensures |name| <= |path| && path[|path| - |name|..] == name
    ensures '/' !in name
    ensures |name| < |path| ==> path[|path| - |name| - 1] == '/'
    decreases |path|
  {
    if |path| == 0 || path[|path| - 1] == '/' then ""
    else GetFileName(path[..|path| - 1]) + [path[|path| - 1]]
  }

  /** A name without a separator is its own file name. */
  lemma {:induction false} FileNameWithoutSeparator(name: string)
    requires '/' !in name
    ensures GetFileName(name) == name
    decreases |name|
  {
    if |name| > 0 {
      assert '/' !in name[..|name| - 1];
      FileNameWithoutSeparator(name[..|name| - 1]);
    }
  }

  /** Only the last component counts: `GetFileName(dir + "/" + name) == name`. */
  lemma {:induction false} FileNameOfChild(dir: string, name: string)
    requires '/' !in name
    ensures GetFileName(dir + "/" + name) == name
    decreases |name|
  {
    var p := dir + "/" + name;
    if |name| > 0 {
      assert p[..|p| - 1] == dir + "/" + name[..|name| - 1];
      assert '/' !in name[..|name| - 1];
      FileNameOfChild(dir, name[..|name| - 1]);
    }
  }

  /** Taking the file name twice changes nothing. */
  lemma FileNameIdempotent(path: string)
    ensures GetFileName(GetFileName(path)) == GetFileName(path)
  {
    FileNameWithoutSeparator(GetFileName(path));
  }

  /** The loop of `Path.GetExtension` over `path[..i]`, scanning right to left:
      the first '.' found before any '/' starts the extension, unless it is the
      last character, in which case there is none. */
  function ScanExtension(path: string, i: nat): (ext: string)
    requires i <= |path|
    requires '/' !in path[i..] && '.' !in path[i..]
    ensures ext == "" || (|ext| >= 2 && ext[0] == '.' && '.' !in ext[1..] && '/' !in ext)
    ensures ext == "" || (|ext| <= |path| && path[|path| - |ext|..] == ext)
    decreases i
  {
    if i == 0 then ""
    else if path[i - 1] == '.' then (if i == |path| then "" else path[i - 1..])
    else if path[i - 1] == '/' then ""
    else
      assert path[i - 1..] == [path[i - 1]] + path[i..];
      ScanExtension(path, i - 1)
  }

  /** `Path.GetExtension`: "" or the text from the last '.' of the file name. */
  function GetExtension(path: string): (ext: string)
    ensures ext == "" || (|ext| >= 2 && ext[0] == '.' && '.' !in ext[1..] && '/' !in ext)
    ensures ext == "" || (|ext| <= |path| && path[|path| - |ext|..] == ext)
  {
    ScanExtension(path, |path|)
  }

  /** A separator-free suffix of a path is a suffix of its file name. */
  lemma {:induction false} SuffixOfFileName(path: string, suffix: string)
    requires |suffix| <= |path| && path[|path| - |suffix|..] == suffix && '/' !in suffix
    ensures |suffix| <= |GetFileName(path)|
    ensures GetFileName(path)[|GetFileName(path)| - |suffix|..] == suffix
    decreases |suffix|
  {
    if |suffix| > 0 {
      var last := path[|path| - 1];
      assert last == suffix[|suffix| - 1];
      var p' := path[..|path| - 1];
      assert p'[|p'| - (|suffix| - 1)..] == suffix[..|suffix| - 1];
      SuffixOfFileName(p', suffix[..|suffix| - 1]);
      assert GetFileName(path) == GetFileName(p') + [last];
    }
  }

  /** `Path.Combine(first, second)`. */
  function Combine(first: string, second: string): string
  {
    if |first| == 0 then second
    else if |second| == 0 then first
    else if second[0] == '/' then second
    else if first[|first| - 1] == '/' then first + second
    else first + "/" + second
  }

  /** A plain file name combined with any directory is a direct child of it. */
  lemma CombineChild(dir: string, name: string)
    requires name != "" && '/' !in name
    ensures GetFileName(Combine(dir, name)) == name
    ensures Combine(dir, name) == name
         || Combine(dir, name) == dir + name
         || Combine(dir, name) == dir + "/" + name
  {
    if |dir| == 0 {
      FileNameWithoutSeparator(name);
    } else if dir[|dir| - 1] == '/' {
      var d := dir[..|dir| - 1];
      assert dir + name == d + "/" + name;
      FileNameOfChild(d, name);
    } else {
      FileNameOfChild(dir, name);
    }
  }
}
