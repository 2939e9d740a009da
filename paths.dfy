/**
  The parts of `boost::filesystem::path` (version 3 rules, POSIX) that the camera
  and the stream logger use: the file name, with its special cases for a
  trailing '/', a root directory and a "//name" root name; its extension; its
  stem; and removing the extension (`change_extension(p, "")`). Only '/'
  separates directories.
 */
module Paths {

  /** Index of the last `c` in `s`, or -1 when there is none. */
  function LastIndexOf(s: string, c: char): (r: int)
    ensures -1 <= r < |s|
  {
    if s == [] then -1
    else if s[|s| - 1] == c then |s| - 1
    else LastIndexOf(s[..|s| - 1], c)
  }

  /** The index found holds `c`, and no later index does. */
  lemma {:induction false} LastIndexOfIsLast(s: string, c: char)
    ensures 0 <= LastIndexOf(s, c) ==> s[LastIndexOf(s, c)] == c
    ensures forall j :: LastIndexOf(s, c) < j < |s| ==> s[j] != c
  {
    if s != [] && s[|s| - 1] != c {
      LastIndexOfIsLast(s[..|s| - 1], c);
    }
  }

  /** Index of the first `c` in `s` at or after `from`, or -1 when there is none. */
  function IndexOfFrom(s: string, c: char, from: nat): (r: int)
    requires from <= |s|
    ensures r == -1 || from <= r < |s|
    decreases |s| - from
  {
    if from == |s| then -1
    else if s[from] == c then from
    else IndexOfFrom(s, c, from + 1)
  }

  /** The index found is the first `c` at or after `from`. */
  lemma {:induction false} IndexOfFromIsFirst(s: string, c: char, from: nat)
    requires from <= |s|
    ensures IndexOfFrom(s, c, from) == -1 ==> forall i :: from <= i < |s| ==> s[i] != c
    ensures 0 <= IndexOfFrom(s, c, from) ==>
      s[IndexOfFrom(s, c, from)] == c && forall i :: from <= i < IndexOfFrom(s, c, from) ==> s[i] != c
    decreases |s| - from
  {
    if from < |s| && s[from] != c {
      IndexOfFromIsFirst(s, c, from + 1);
    }
  }

  /** Start of the run of '/' that ends at `pos`. */
  function SlashRunStart(p: string, pos: nat): (q: nat)
    requires pos < |p|
    ensures q <= pos
  {
    if pos == 0 || p[pos - 1] != '/' then pos else SlashRunStart(p, pos - 1)
  }

  /** Everything from the start found up to `pos` is '/', and the character
      before it, if any, is not. */
  lemma {:induction false} SlashRunStartIsRun(p: string, pos: nat)
    requires pos < |p|
    ensures forall j :: SlashRunStart(p, pos) <= j < pos ==> p[j] == '/'
    ensures SlashRunStart(p, pos) == 0 || p[SlashRunStart(p, pos) - 1] != '/'
  {
    if pos > 0 && p[pos - 1] == '/' {
      SlashRunStartIsRun(p, pos - 1);
    }
  }

  /** Whether the '/' at `pos` belongs to the root directory: its run of '/'
      starts the path, or directly follows a "//name" root name. */
  predicate IsRootSeparator(p: string, pos: nat)
    requires pos < |p|
  {
    var q := SlashRunStart(p, pos);
    q == 0 || (3 <= q && p[0] == '/' && p[1] == '/' && IndexOfFrom(p, '/', 2) == q)
  }

  /** Where the file name starts: the whole of "//", the last '/' of a path
      that ends in one, the start of a "//name" root name, or after the last '/'. */
  function FileNamePos(p: string): (pos: nat)
    ensures p == [] ==> pos == 0
    ensures p != [] ==> pos < |p|
  {
    if |p| == 2 && p[0] == '/' && p[1] == '/' then 0
    else if p != [] && p[|p| - 1] == '/' then |p| - 1
    else
      var k := LastIndexOf(p, '/');
      if k < 0 || (k == 1 && p[0] == '/') then 0 else k + 1
  }

  /** `path::filename()`: "." for a path ending in a '/' that is not part of
      the root directory, otherwise the path from `FileNamePos` on. */
  function FileName(p: string): (name: string)
    ensures |name| <= |p|
  {
    var pos := FileNamePos(p);
    if 0 < pos && p[pos] == '/' && !IsRootSeparator(p, pos) then "." else p[pos..]
  }

  /** A path not ending in '/' has as file name its part from `FileNamePos`
      on, which starts the path or follows a '/'. */
  lemma FileNameFromPos(p: string)
    requires p != [] && p[|p| - 1] != '/'
    ensures FileName(p) == p[FileNamePos(p)..]
    ensures FileNamePos(p) == 0 || p[FileNamePos(p) - 1] == '/'
  {
    LastIndexOfIsLast(p, '/');
  }

  /** The file name is "." or a suffix of the path. */
  lemma FileNameIsDotOrSuffix(p: string)
    ensures FileName(p) == "." || FileName(p) == p[|p| - |FileName(p)|..]
  {
  }

  /** Every character of `s` is '/'. */
  predicate AllSlashes(s: string) {
    forall i :: 0 <= i < |s| ==> s[i] == '/'
  }

  /** The path names nothing but a root: one or more '/', or a "//name" root
      name, possibly followed by '/'s. */
  predicate RootOnly(p: string) {
    && p != []
    && (|| AllSlashes(p)
        || (&& 3 <= |p| && p[0] == '/' && p[1] == '/' && p[2] != '/'
            && forall i, j :: 2 <= i <= j < |p| && p[i] == '/' ==> p[j] == '/'))
  }

  /** For a path ending in '/', that '/' is a root separator exactly when the
      path names only a root. */
  lemma TrailingRootSeparator(p: string)
    requires p != [] && p[|p| - 1] == '/'
    ensures IsRootSeparator(p, |p| - 1) <==> RootOnly(p)
  {
    var q := SlashRunStart(p, |p| - 1);
    SlashRunStartIsRun(p, |p| - 1);
    if q == 0 {
      assert AllSlashes(p);
    } else if RootOnly(p) {
      assert !AllSlashes(p);
      assert 3 <= q && p[q] == '/';
      IndexOfFromIsFirst(p, '/', 2);
      forall i | 2 <= i < q
        ensures p[i] != '/'
      {
        if p[i] == '/' {
          assert false;
        }
      }
    } else if IsRootSeparator(p, |p| - 1) {
      IndexOfFromIsFirst(p, '/', 2);
      forall i, j | 2 <= i <= j < |p| && p[i] == '/'
        ensures p[j] == '/'
      {
        assert q <= i;
      }
      assert false;
    }
  }

  /** For a path not ending in '/', the last '/' is the second character of a
      "//" prefix exactly when the path names only a root. */
  lemma LastSlashRoot(p: string)
    requires p != [] && p[|p| - 1] != '/'
    ensures (LastIndexOf(p, '/') == 1 && p[0] == '/') <==> RootOnly(p)
  {
    LastIndexOfIsLast(p, '/');
    if RootOnly(p) {
      assert !AllSlashes(p);
      forall j | 2 <= j < |p|
        ensures p[j] != '/'
      {
        if p[j] == '/' {
          assert false;
        }
      }
    }
  }

  /** An ordinary path, one that neither ends in '/' nor names only a root,
      has as file name its last component: the non-empty part after its last
      '/', or the whole path when it holds none. */
  lemma FileNameIsLastComponent(p: string)
    requires p != [] && p[|p| - 1] != '/' && !RootOnly(p)
    ensures FileName(p) != []
    ensures '/' !in FileName(p)
    ensures p[|p| - |FileName(p)|..] == FileName(p)
    ensures |FileName(p)| < |p| ==> p[|p| - |FileName(p)| - 1] == '/'
  {
    FileNameFromPos(p);
    LastIndexOfIsLast(p, '/');
    LastSlashRoot(p);
    assert FileNamePos(p) == LastIndexOf(p, '/') + 1;
  }

  /** A path that ends in '/' but does not name only a root has the file name ".". */
  lemma FileNameOfDirectory(p: string)
    requires p != [] && p[|p| - 1] == '/' && !RootOnly(p)
    ensures FileName(p) == "."
  {
    TrailingRootSeparator(p);
  }

  /** A path that ends in '/' but does not name only a root has the stem "."
      and no extension. */
  lemma StemOfDirectory(p: string)
    requires p != [] && p[|p| - 1] == '/' && !RootOnly(p)
    ensures Stem(p) == "." && Extension(p) == []
  {
    FileNameOfDirectory(p);
  }

  /** A path naming only a root is its own file name when it is "//" or a
      "//name" root name, and has the file name "/" when it ends in a root
      directory. */
  lemma FileNameOfRoot(p: string)
    requires RootOnly(p)
    ensures FileName(p) == if p == "//" || p[|p| - 1] != '/' then p else "/"
  {
    if p[|p| - 1] == '/' {
      TrailingRootSeparator(p);
    } else {
      LastSlashRoot(p);
    }
  }

  /** The file name holds a '/' exactly when the path names only a root, and
      it then starts with one. */
  lemma FileNameHasSlashIffRoot(p: string)
    ensures '/' in FileName(p) <==> RootOnly(p)
    ensures RootOnly(p) ==> FileName(p)[0] == '/'
  {
    if p == [] {
    } else if RootOnly(p) {
      FileNameOfRoot(p);
    } else if p[|p| - 1] == '/' {
      FileNameOfDirectory(p);
    } else {
      FileNameIsLastComponent(p);
    }
  }

  /** `path::extension()`: from the last '.' of the file name on, or empty. */
  function Extension(p: string): (ext: string)
    ensures |ext| <= |FileName(p)|
  {
    var name := FileName(p);
    if name == "." || name == ".." then ""
    else
      var k := LastIndexOf(name, '.');
      if k < 0 then "" else name[k..]
  }

  /** The extension ends the file name and starts at its last '.', and it is
      empty only when the file name has no '.' or is "." or "..". */
  lemma ExtensionEndsFileName(p: string)
    ensures Extension(p) == [] || Extension(p)[0] == '.'
    ensures Extension(p) != [] ==> '.' !in Extension(p)[1..]
    ensures Extension(p) == [] ==> '.' !in FileName(p) || FileName(p) == "." || FileName(p) == ".."
    ensures FileName(p)[|FileName(p)| - |Extension(p)|..] == Extension(p)
  {
    LastIndexOfIsLast(FileName(p), '.');
  }

  /** `path::stem()`: the file name without its extension. */
  function Stem(p: string): string
  {
    var name := FileName(p);
    name[..|name| - |Extension(p)|]
  }

  /** `change_extension(p, "")`: the whole path with the extension removed. */
  function RemoveExtension(p: string): (base: string)
    ensures |base| <= |p|
  {
    p[..|p| - |Extension(p)|]
  }

  lemma StemThenExtensionIsFileName(p: string)
    ensures Stem(p) + Extension(p) == FileName(p)
  {
    ExtensionEndsFileName(p);
    SuffixSplit(FileName(p), Extension(p));
  }

  lemma RemoveExtensionRoundTrip(p: string)
    ensures RemoveExtension(p) + Extension(p) == p
  {
    var name, ext := FileName(p), Extension(p);
    ExtensionEndsFileName(p);
    FileNameIsDotOrSuffix(p);
    if name == "." {
      assert ext == [];
    } else {
      assert ext == p[|p| - |ext|..];
    }
    SuffixSplit(p, ext);
  }

  /** A sequence is its part before a suffix followed by that suffix. */
  lemma SuffixSplit(s: string, suffix: string)
    requires |suffix| <= |s| && s[|s| - |suffix|..] == suffix
    ensures s[..|s| - |suffix|] + suffix == s
  {
  }

  lemma {:induction false} LastIndexOfAppend(a: string, b: string, c: char)
    ensures c in b ==> LastIndexOf(a + b, c) == |a| + LastIndexOf(b, c)
    ensures c !in b ==> LastIndexOf(a + b, c) == LastIndexOf(a, c)
  {
    if b != [] {
      assert (a + b)[..|a + b| - 1] == a + b[..|b| - 1];
      LastIndexOfAppend(a, b[..|b| - 1], c);
      if b[|b| - 1] != c {
        assert c in b ==> c in b[..|b| - 1];
      }
    } else {
      assert a + b == a;
    }
  }

  /** A string whose only `c` is its first character finds it at index 0. */
  lemma {:induction false} LastIndexOfOnlyFirst(s: string, c: char)
    requires 1 <= |s| && s[0] == c
    requires forall i :: 1 <= i < |s| ==> s[i] != c
    ensures LastIndexOf(s, c) == 0
  {
    if 1 < |s| {
      LastIndexOfOnlyFirst(s[..|s| - 1], c);
    }
  }

  /** A file name built as `<base><ext>` has the extension `ext` when `ext` is a
      dot followed by at least one character that is neither '.' nor '/'. */
  lemma AppendedExtension(base: string, ext: string)
    requires 2 <= |ext| && ext[0] == '.'
    requires forall i :: 1 <= i < |ext| ==> ext[i] != '.' && ext[i] != '/'
    ensures Extension(base + ext) == ext
  {
    var p := base + ext;
    var pos := FileNamePos(p);
    FileNameFromPos(p);
    assert pos <= |base|;
    var name := FileName(p);
    assert name == base[pos..] + ext;
    assert name[|name| - 1] == ext[|ext| - 1];
    LastIndexOfOnlyFirst(ext, '.');
    LastIndexOfAppend(base[pos..], ext, '.');
    var k := LastIndexOf(name, '.');
    assert k == |base| - pos;
    assert name[k..] == ext;
  }
}
