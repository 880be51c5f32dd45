/** The directory that holds every domain's versions, and the file operations used on it. */
module Disk {
  import opened Prelude
  import opened Paths

  /** One version directory, `<prefix>/<domain>/<version>`. */
  datatype Slot = Slot(domain: string, version: U32)

  function Ancestors(p: Path): set<Path> {
    set i | 0 < i < |p| :: p[..i]
  }

  datatype RawDir = Dir(files: map<Path, Bytes>, dirs: set<Path>)
  {
    /** A path is a file or a directory, never both, and whatever encloses it is a directory. */
    ghost predicate IsTree() {
      && [] !in files && [] !in dirs
      && (forall p :: p in files ==> p !in dirs && Ancestors(p) <= dirs)
      && (forall p :: p in dirs ==> Ancestors(p) <= dirs)
    }
  }

  type Dir = d: RawDir | d.IsTree() witness Dir(map[], {})

  type Disk = map<Slot, Dir>

  const EMPTY_DIR: Dir := Dir(map[], {})

  /** The file that marks a version as being uploaded. */
  const MARKER: Path := [".SPA-Processing"]

  /** `path.exists()` on the marker. */
  predicate Marked(dir: Dir) {
    MARKER in dir.files || MARKER in dir.dirs
  }

  /** An entry ".SPA-Processing" at the top of the version, file or directory. */
  lemma MarkedExactlyWhen(dir: Dir)
    ensures Marked(dir) <==> [".SPA-Processing"] in dir.files || [".SPA-Processing"] in dir.dirs
  {
  }

  function At(disk: Disk, slot: Slot): Dir {
    if slot in disk then disk[slot] else EMPTY_DIR
  }

  function Decimal(n: nat): string {
    (if n < 10 then "" else Decimal(n / 10)) + [(n % 10) as char + '0']
  }

  /** `prefix` ends in a separator, as `PathBuf::join` makes it. */
  function VersionPath(prefix: string, slot: Slot): string {
    prefix + slot.domain + "/" + Decimal(slot.version)
  }

  // Domains

  predicate IsAlnum(c: char) {
    'a' <= c <= 'z' || 'A' <= c <= 'Z' || '0' <= c <= '9'
  }

  predicate LabelBeforeDot(name: string, i: nat, j: nat)
    requires i < j < |name| - 1
  {
    && IsAlnum(name[i])
    && (forall k :: i < k < j ==> IsAlnum(name[k]) || name[k] == '-')
    && name[j] == '.'
    && IsAlnum(name[j + 1])
  }

  /**
   `URI_REGEX.is_match`: unanchored, so it asks for a label character run of at most 63,
   started by a letter or digit, then a dot, then a letter or digit. The rest of the pattern is optional.
   */
  predicate IsHost(name: string) {
    exists i, j :: 0 <= i < j <= i + 63 && j < |name| - 1 && LabelBeforeDot(name, i, j)
  }

  /** The pattern's [a-zA-Z0-9], by ASCII codes. */
  predicate InClass(c: char) {
    48 <= c as int <= 57 || 65 <= c as int <= 90 || 97 <= c as int <= 122
  }

  /** The pattern's [a-zA-Z0-9][-a-zA-Z0-9]{0,62}. */
  ghost predicate IsLabel(tag: string) {
    && 1 <= |tag| <= 63 && InClass(tag[0])
    && forall k :: 0 <= k < |tag| ==> InClass(tag[k]) || tag[k] == '-'
  }

  ghost predicate HostParts(name: string, before: string, tag: string, after: string) {
    && name == before + tag + "." + after
    && IsLabel(tag) && after != "" && InClass(after[0])
  }

  lemma PartsOfHost(name: string, i: nat, j: nat)
    requires i < j <= i + 63 && j < |name| - 1 && LabelBeforeDot(name, i, j)
    ensures HostParts(name, name[..i], name[i..j], name[j + 1..])
  {
  }

  lemma HostOfParts(name: string, before: string, tag: string, after: string)
    requires HostParts(name, before, tag, after)
    ensures IsHost(name)
  {
    var i, j := |before|, |before| + |tag|;
    assert forall k :: i <= k < j ==> name[k] == tag[k - i];
    assert name[j] == '.' && name[j + 1] == after[0];
    assert LabelBeforeDot(name, i, j);
  }

  /** A host is a name that holds a label, a dot and a letter or digit, one after the other. */
  lemma HostExactlyWhen(name: string)
    ensures IsHost(name) <==> exists before, tag, after :: HostParts(name, before, tag, after)
  {
    hide HostParts, LabelBeforeDot;
    if IsHost(name) {
      var i, j :| 0 <= i < j <= i + 63 && j < |name| - 1 && LabelBeforeDot(name, i, j);
      PartsOfHost(name, i, j);
    }
    if before, tag, after :| HostParts(name, before, tag, after) {
      HostOfParts(name, before, tag, after);
    }
  }

  /** So an ordinary domain name is one, and a name without a dot is not. */
  lemma HostExamples(name: string)
    ensures IsHost("example.com")
    ensures '.' !in name ==> !IsHost(name)
  {
    assert LabelBeforeDot("example.com", 0, 7);
  }

  // Directories inside a version

  predicate IsDirectory(dir: Dir, p: Path) {
    p == [] || p in dir.dirs
  }

  /** Some enclosing path of `p` is a file. */
  predicate Blocked(dir: Dir, p: Path) {
    exists q :: q in Ancestors(p) && q in dir.files
  }

  /** Neither the same file nor the one a directory around the other, seen from `p`. */
  predicate Apart(p: Path, q: Path) {
    p != q && p !in Ancestors(q)
  }

  lemma AncestorsNest(p: Path, q: Path)
    requires q in Ancestors(p)
    ensures Ancestors(q) <= Ancestors(p)
    ensures q != [] && q != p && p !in Ancestors(q)
  {
    var i :| 0 < i < |p| && p[..i] == q;
    forall r | r in Ancestors(q) ensures r in Ancestors(p) {
      var j :| 0 < j < |q| && q[..j] == r;
      assert r == p[..j];
    }
  }

  /** `create_dir_all` of everything that encloses `p`. */
  function WithParents(dir: Dir, p: Path): (grown: Dir)
    requires !Blocked(dir, p)
    ensures grown.files == dir.files && grown.dirs == dir.dirs + Ancestors(p)
  {
    assert forall q :: q in Ancestors(p) ==> Ancestors(q) <= Ancestors(p) && q != [] by {
      forall q | q in Ancestors(p) ensures Ancestors(q) <= Ancestors(p) && q != [] {
        AncestorsNest(p, q);
      }
    }
    Dir(dir.files, dir.dirs + Ancestors(p))
  }

  /** `File::create` of `p`, followed by writing `data`. */
  function WithFile(dir: Dir, p: Path, data: Bytes): (grown: Dir)
    requires !Blocked(dir, p) && p != [] && p !in dir.dirs
    ensures grown.files == dir.files[p := data] && grown.dirs == dir.dirs + Ancestors(p)
  {
    var parents := WithParents(dir, p);
    assert p !in Ancestors(p) by {
      if p in Ancestors(p) { AncestorsNest(p, p); }
    }
    Dir(parents.files[p := data], parents.dirs)
  }

  function WithoutFile(dir: Dir, p: Path): (shrunk: Dir)
    ensures shrunk.files == dir.files - {p} && shrunk.dirs == dir.dirs
  {
    Dir(dir.files - {p}, dir.dirs)
  }

  lemma MarkerNotBlocked(dir: Dir)
    ensures Ancestors(MARKER) == {} && !Blocked(dir, MARKER)
  {
  }

  /**
   What saving `data` at `t` leaves in a version directory (`None` when there is none yet), and
   whether it succeeds. An existing file is opened for reading only: writing nothing to it
   succeeds, writing anything fails.
   */
  function WriteFile(tree: Option<Dir>, t: Target, data: Bytes): (Option<Dir>, bool) {
    var dir := if tree.Some? then tree.value else EMPTY_DIR;
    if tree.Some? && IsDirectory(dir, t.path) then (tree, data == [])
    else if t.path == [] || Blocked(dir, t.path) then (tree, false)
    else if t.dirOnly then (Some(WithParents(dir, t.path)), false)
    else if t.path in dir.files then (tree, data == [])
    else (Some(WithFile(dir, t.path, data)), true)
  }

  ghost predicate TornFile(dir: Dir, p: Path, data: Bytes, left: Dir)
    requires !Blocked(dir, p) && p != [] && p !in dir.dirs
  {
    exists n :: 0 <= n <= |data| && left == WithFile(dir, p, data[..n])
  }

  /** What an interrupted save may leave: nothing, only directories, or the file with a prefix of its data. */
  ghost predicate TornWrite(tree: Option<Dir>, t: Target, data: Bytes, left: Option<Dir>) {
    var dir := if tree.Some? then tree.value else EMPTY_DIR;
    || left == tree
    || (left.Some? && t.path != [] && !Blocked(dir, t.path) && t.path !in dir.dirs &&
        (|| (left.value.files == dir.files && dir.dirs <= left.value.dirs <= dir.dirs + Ancestors(t.path))
         || (!t.dirOnly && t.path !in dir.files && TornFile(dir, t.path, data, left.value))))
  }

  // Names of version directories

  predicate IsNumeral(s: string) {
    forall k :: 0 <= k < |s| ==> '0' <= s[k] <= '9'
  }

  function Value(digits: string): nat
    requires IsNumeral(digits)
  {
    if digits == "" then 0
    else 10 * Value(digits[..|digits| - 1]) + (digits[|digits| - 1] as int - '0' as int)
  }

  /** A version's name is its number in decimal digits, without leading zeros. */
  lemma {:induction false} DecimalReadsBack(n: nat)
    ensures Decimal(n) != "" && IsNumeral(Decimal(n)) && Value(Decimal(n)) == n
    ensures n > 0 ==> Decimal(n)[0] != '0'
  {
    if n >= 10 {
      DecimalReadsBack(n / 10);
    }
    var s, c := Decimal(n), (n % 10) as char + '0';
    var front := if n < 10 then "" else Decimal(n / 10);
    assert s == front + [c] && s[..|s| - 1] == front;
  }

  lemma PiecesOfTwo(front: string, back: string)
    requires '/' !in front && '/' !in back
    ensures SplitOn(front + ['/'] + back, '/') == [front, back]
  {
    SplitPiece(front, back, '/');
    SplitPiece(back, "", '/');
  }

  /** Different versions have different directories. */
  lemma VersionPathInjective(prefix: string, a: Slot, b: Slot)
    requires '/' !in a.domain && '/' !in b.domain
    requires VersionPath(prefix, a) == VersionPath(prefix, b)
    ensures a == b
  {
    var one, two := Decimal(a.version), Decimal(b.version);
    DecimalReadsBack(a.version);
    DecimalReadsBack(b.version);
    hide Decimal, SplitOn, Value;
    var tailA, tailB := a.domain + ['/'] + one, b.domain + ['/'] + two;
    assert VersionPath(prefix, a) == prefix + tailA && VersionPath(prefix, b) == prefix + tailB;
    assert tailA == VersionPath(prefix, a)[|prefix|..] == tailB;
    PiecesOfTwo(a.domain, one);
    PiecesOfTwo(b.domain, two);
    assert SplitOn(tailA, '/')[0] == a.domain && SplitOn(tailA, '/')[1] == one;
  }
}
