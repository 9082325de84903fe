/** The parts of `pathlib` the program relies on, on POSIX path strings:
    the suffix of a file name, the parent of a path, joining a relative path
    onto a directory, and absolute paths. */
module Paths {
  import opened Text

  /** One entry of a directory listing: its name and whether it is a regular
      file (`Path.is_file()`). */
  datatype DirEntry = DirEntry(name: string, isFile: bool)

  /** Index of the last `c` in `s`, or -1. */
  function LastIndexOf(s: string, c: char): (i: int)
    ensures -1 <= i < |s|
    ensures 0 <= i ==> s[i] == c
    ensures forall j :: i < j < |s| ==> s[j] != c
  {
    if s == [] then -1
    else if s[|s| - 1] == c then |s| - 1
    else LastIndexOf(s[..|s| - 1], c)
  }

  /** `PurePath.suffix` of a file name: from the last dot on, provided that
      dot is neither the first nor the last character. */
  function Suffix(name: string): (r: string)
    ensures r == [] || (|r| >= 2 && r[0] == '.' && EndsWith(name, r) && |r| < |name|)
    ensures r != [] ==> '.' !in r[1..]
    ensures forall i :: 0 < i < |name| - 1 && name[i] == '.' && '.' !in name[i + 1..] ==> r == name[i..]
  {
    var i := LastIndexOf(name, '.');
    if 0 < i < |name| - 1 then name[i..] else ""
  }

  /** A name ends with its suffix, and still does once both are
      lower-cased. */
  lemma LowerSuffixEndsLowerName(name: string)
    ensures EndsWith(Lower(name), Lower(Suffix(name)))
  {
    var suffix := Suffix(name);
    var n := |name|;
    assert name == name[..n - |suffix|] + suffix;
    LowerAppend(name[..n - |suffix|], suffix);
  }

  predicate IsAbsolute(p: string)
    ensures IsAbsolute(p) <==> StartsWith(p, "/")
  {
    |p| > 0 && p[0] == '/'
  }

  /** `PurePath.name`: what follows the last slash. */
  function Name(p: string): (r: string)
    ensures EndsWith(p, r) && '/' !in r
    ensures r == p || (|r| < |p| && p[|p| - |r| - 1] == '/')
  {
    p[LastIndexOf(p, '/') + 1..]
  }

  /** `PurePath.parent`, for a path without repeated or trailing slashes:
      "." for a bare name, "/" for an entry of the root, otherwise what
      comes before the last slash. */
  function Parent(p: string): (r: string)
    ensures '/' !in p ==> r == "."
    ensures '/' in p ==> |r| <= |p| && StartsWith(p, r)
    ensures '/' in p && p[0] == '/' && '/' !in p[1..] ==> r == "/"
    ensures '/' in p && !(p[0] == '/' && '/' !in p[1..]) ==>
              r != "" && |r| < |p| && p[|r|] == '/' && '/' !in p[|r| + 1..]
  {
    var i := LastIndexOf(p, '/');
    if i < 0 then "." else if i == 0 then "/" else p[..i]
  }

  /** `Path(base) / rel` for a relative `rel`. */
  function JoinPath(base: string, rel: string): (r: string)
    ensures EndsWith(r, rel)
    ensures base != "." ==> StartsWith(r, base) && |r| <= |base| + 1 + |rel|
    ensures base != "." ==> r == base + (if EndsWith(base, "/") then "" else "/") + rel
  {
    if base == "." then rel
    else if EndsWith(base, "/") then base + rel
    else base + "/" + rel
  }

  /** A path is its parent joined with its name, unless its last slash is
      doubled or it starts with "./" (which `pathlib` would have dropped). */
  lemma ParentJoinName(p: string)
    requires LastIndexOf(p, '/') > 0 ==> p[LastIndexOf(p, '/') - 1] != '/'
    requires !StartsWith(p, "./")
    ensures JoinPath(Parent(p), Name(p)) == p
  {
    var i := LastIndexOf(p, '/');
    assert Name(p) == p[i + 1..];
    if i > 0 {
      assert p[..i] != "." by {
        if i == 1 { assert p[..2] != "./"; }
      }
      JoinAtLastSlash(p, i);
    } else if i == 0 {
      assert Parent(p) == "/";
      assert "/" + p[1..] == p;
    } else {
      assert Parent(p) == "." && Name(p) == p;
    }
  }

  lemma JoinAtLastSlash(p: string, i: nat)
    requires 0 < i < |p| && p[i] == '/' && p[i - 1] != '/' && p[..i] != "."
    ensures JoinPath(p[..i], p[i + 1..]) == p
  {
    var base := p[..i];
    assert !EndsWith(base, "/");
    assert base + "/" + p[i + 1..] == p;
  }

  /** The values `pathlib` gives on a few paths. */
  lemma PathlibExamples()
    ensures Parent("a/b") == "a" && Parent("/b") == "/" && Parent("b") == "."
    ensures Name("a/b") == "b" && JoinPath("a", "b") == "a/b" && JoinPath("/", "b") == "/b"
  {
    assert LastIndexOf("a/b", '/') == 1;
    assert LastIndexOf("/b", '/') == 0;
  }
}
