/** The few pathlib rules the core relies on: `dir / name`, `.name`,
    `.parent`, `.stem` and `.suffix`, on POSIX-style paths written as strings. */
module Paths {

  type Path = string

  /** `Path(dir) / name`. A name that holds no separator makes a direct
      child of the directory: its parent is the directory and its name is
      the name. */
  function Join(dir: Path, name: string): (r: Path)
    ensures '/' !in name ==> Parent(r) == dir && Name(r) == name
  {
    if '/' !in name then ChildSplits(dir, name); dir + "/" + name
    else dir + "/" + name
  }

  /** Index of the last occurrence of `c` in `s`, or -1 (Python's `str.rfind`). */
  function LastIndex(s: string, c: char): (k: int)
    ensures -1 <= k < |s|
    ensures 0 <= k ==> s[k] == c
    ensures forall i :: k < i < |s| ==> s[i] != c
  {
    if s == [] then -1
    else if s[|s| - 1] == c then |s| - 1
    else LastIndex(s[..|s| - 1], c)
  }

  /** `Path.name`: the final component. */
  function Name(p: Path): (r: string)
    ensures '/' !in r
  {
    p[LastIndex(p, '/') + 1..]
  }

  /** `Path.parent`: everything before the final separator, "." when there
      is none. At the root this gives "" (for "/x" and "/"), where `pathlib`
      gives "/". */
  function Parent(p: Path): Path
  {
    var k := LastIndex(p, '/');
    if k < 0 then "." else p[..k]
  }

  /** A path with a separator is its parent, a separator and its name. */
  lemma ParentJoinsName(p: Path)
    requires 0 <= LastIndex(p, '/')
    ensures Parent(p) + "/" + Name(p) == p
  {
    var k := LastIndex(p, '/');
    assert p == p[..k] + [p[k]] + p[k + 1..];
  }

  lemma ChildSplits(dir: Path, name: string)
    requires '/' !in name
    ensures Parent(dir + "/" + name) == dir
    ensures Name(dir + "/" + name) == name
  {
    var p := dir + "/" + name;
    var k := LastIndex(p, '/');
    assert p[|dir|] == '/';
    assert p[|dir| + 1..] == name;
    assert k == |dir|;
    assert p[..k] == dir;
    assert p[k + 1..] == name;
  }

  /** An occurrence of `c` in `b` stays the last one after a prefix is added. */
  lemma LastIndexAppend(a: string, b: string, c: char)
    requires 0 <= LastIndex(b, c)
    ensures LastIndex(a + b, c) == |a| + LastIndex(b, c)
  {
    var k := LastIndex(a + b, c);
    var j := LastIndex(b, c);
    assert (a + b)[|a| + j] == c;
    assert k >= |a| + j;
    assert (a + b)[k] == b[k - |a|];
  }

  /** `Path.suffix`: from the last dot of the name, provided that dot is
      neither the first nor the last character; otherwise empty. */
  function Suffix(name: string): (r: string)
    ensures r == [] || (r[0] == '.' && 2 <= |r| < |name|)
    ensures r != [] ==> '.' !in r[1..]
  {
    var i := LastIndex(name, '.');
    if 0 < i < |name| - 1 then name[i..] else ""
  }

  /** `Path.stem`: the name without its suffix. */
  function Stem(name: string): (r: string)
    ensures r + Suffix(name) == name
  {
    var i := LastIndex(name, '.');
    if 0 < i < |name| - 1 then name[..i] else name
  }

  /** Appending an extension (a dot followed by at least one character and
      no further dot) to a non-empty front makes that extension the suffix
      and the front the stem. */
  lemma StemSuffixOfAppend(front: string, ext: string)
    requires 0 < |front| && 2 <= |ext| && ext[0] == '.' && '.' !in ext[1..]
    ensures Suffix(front + ext) == ext && Stem(front + ext) == front
  {
    assert forall i :: 0 < i < |ext| ==> ext[i] == ext[1..][i - 1];
    assert LastIndex(ext, '.') == 0;
    LastIndexAppend(front, ext, '.');
    var name := front + ext;
    assert name[..|front|] == front && name[|front|..] == ext;
  }

  /** The directories `Path.mkdir(parents=True, exist_ok=True)` makes sure
      exist: the path itself and every ancestor reached through `.parent`,
      down to a single component ("." and "/" always exist). */
  function Lineage(dir: Path): (r: set<Path>)
    ensures dir in r
    ensures forall d :: d in r ==> d == dir || (|d| < |dir| && dir[..|d|] == d && dir[|d|] == '/')
    decreases |dir|
  {
    var k := LastIndex(dir, '/');
    if k <= 0 then {dir}
    else
      var up := Lineage(dir[..k]);
      assert forall d :: d in up ==> d == dir[..k] || (|d| < k && dir[..|d|] == d && dir[|d|] == '/');
      {dir} + up
  }

  /** The lineage holds the parent of each of its members, so after
      `mkdir(parents=True)` no directory on the way is missing. */
  lemma {:induction false} LineageHasParents(dir: Path, d: Path)
    requires d in Lineage(dir) && 0 < LastIndex(d, '/')
    ensures Parent(d) in Lineage(dir)
    decreases |dir|
  {
    var k := LastIndex(dir, '/');
    if d != dir {
      assert 0 < k;
      LineageHasParents(dir[..k], d);
    }
  }
}
