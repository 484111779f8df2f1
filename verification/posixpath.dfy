/** The parts of Python's `posixpath` that the pipeline uses to derive a
    video's stem: `basename`, `splitext` and `join`. */
module PosixPath {
  import opened PyStr

  type Path = string

  /** Every index in `[from, to)` of `p` holds a dot (vacuously true of an
      empty range). */
  predicate DotsOnly(p: Path, from: int, to: int)
    requires 0 <= from && to <= |p|
  {
    forall i :: from <= i < to ==> p[i] == '.'
  }

  /** No slash occurs in `p` from index `from` on. */
  predicate NoSlashFrom(p: Path, from: int)
    requires 0 <= from
  {
    forall m :: from <= m < |p| ==> p[m] != '/'
  }

  /** `os.path.basename(p)`: the text after the last slash. */
  function Basename(p: Path): (name: string)
    ensures '/' !in name
    ensures |name| <= |p| && p[|p| - |name|..] == name
    ensures |name| < |p| ==> p[|p| - |name| - 1] == '/'
  {
    p[RFind(p, '/') + 1..]
  }

  /** A basename is pinned down by its defining properties: the suffix of
      `p` with no slash that is the whole of `p` or follows a slash. */
  lemma BasenameUnique(p: Path, name: string)
    requires '/' !in name
    requires |name| <= |p| && p[|p| - |name|..] == name
    requires |name| < |p| ==> p[|p| - |name| - 1] == '/'
    ensures Basename(p) == name
  {
  }

  /** The two halves returned by `os.path.splitext`. */
  datatype Split = Split(root: Path, ext: string)

  /** The last component of `p` carries an extension: some dot in it comes
      after a character that is not a dot (so ".bashrc" and "..x" have
      none, while "a.b" and ".a.b" do). */
  predicate HasExtension(p: Path) {
    exists j, k :: 0 <= j < k < |p| && p[j] != '.' && p[k] == '.' && NoSlashFrom(p, j)
  }

  /** `os.path.splitext(p)`: the extension runs from the last dot of the
      last component, unless that component is only leading dots up to
      that dot, in which case there is no extension. */
  function SplitExt(p: Path): (r: Split)
    ensures r.root + r.ext == p
    ensures r.ext != "" <==> HasExtension(p)
    ensures r.ext != "" ==> IsLast(p, '.', |r.root|) && NoSlashFrom(p, |r.root|)
  {
    var sepIndex := RFind(p, '/');
    var dotIndex := RFind(p, '.');
    HasExtensionIff(p);
    if dotIndex > sepIndex && !DotsOnly(p, sepIndex + 1, dotIndex) then
      Split(p[..dotIndex], p[dotIndex..])
    else
      Split(p, "")
  }

  /** The test `splitext` performs with `rfind` (last dot after the last
      slash, and not only dots before it) decides `HasExtension`. */
  lemma HasExtensionIff(p: Path)
    ensures var sepIndex, dotIndex := RFind(p, '/'), RFind(p, '.');
      HasExtension(p) <==> dotIndex > sepIndex && !DotsOnly(p, sepIndex + 1, dotIndex)
  {
  }

  /** `os.path.join(a, b)`: `b` alone when it is absolute, otherwise `a`
      and `b` with exactly one slash added when `a` lacks a trailing one. */
  function Join(a: Path, b: Path): (r: Path)
    ensures |b| > 0 && b[0] == '/' ==> r == b
    ensures !(|b| > 0 && b[0] == '/') ==> EndsWith(r, b)
    ensures !(|b| > 0 && b[0] == '/') && (a == "" || EndsWith(a, "/")) ==> r == a + b
    ensures !(|b| > 0 && b[0] == '/') && a != "" && !EndsWith(a, "/") ==> r == a + "/" + b
  {
    if |b| > 0 && b[0] == '/' then b
    else if a == "" || a[|a| - 1] == '/' then a + b
    else a + "/" + b
  }

  /** `p` without its leading slashes. */
  function DropSlashes(p: Path): (r: Path)
    ensures |r| <= |p|
    ensures !(|r| > 0 && r[0] == '/')
    decreases |p|
  {
    if |p| > 0 && p[0] == '/' then DropSlashes(p[1..]) else p
  }

  /** Whether `p` is absolute, that is starts with a slash. */
  predicate Absolute(p: Path) {
    |p| > 0 && p[0] == '/'
  }

  /** The path the operating system resolves a relative spelling to, as far
      as the pipeline needs it: a leading "." component, with the slashes
      that end it, names the current directory and is dropped, so
      "./static/0_a.jpg", ".//static/0_a.jpg" and "static/0_a.jpg" name the
      same file. `NormOfPlain`, `NormDotSlash` and `DropSlashes` together
      determine it. */
  function Norm(p: Path): (r: Path)
    ensures |r| <= |p|
    ensures !(|r| >= 2 && r[0] == '.' && r[1] == '/')
    decreases |p|
  {
    if |p| >= 2 && p[0] == '.' && p[1] == '/' then Norm(DropSlashes(p[1..])) else p
  }

  /** Resolving never turns a relative path into an absolute one. */
  lemma {:induction false} NormKeepsRelative(p: Path)
    requires !Absolute(p)
    ensures !Absolute(Norm(p))
    decreases |p|
  {
    if |p| >= 2 && p[0] == '.' && p[1] == '/' {
      NormKeepsRelative(DropSlashes(p[1..]));
    }
  }

  /** A leading "./" never changes which file a relative path names. */
  lemma NormDropsDotSlash(p: Path)
    requires !Absolute(p)
    ensures Norm("./" + p) == Norm(p)
  {
    var q := "./" + p;
    assert q[0] == '.' && q[1] == '/';
    assert q[1..] == "/" + p;
    assert ("/" + p)[1..] == p;
    assert DropSlashes(q[1..]) == p;
  }

  /** A leading "./" and every slash after it are dropped, whatever
      follows them. */
  lemma NormDotSlash(p: Path)
    ensures Norm("./" + p) == Norm(DropSlashes(p))
  {
    var q := "./" + p;
    assert q[1..] == "/" + p;
    assert ("/" + p)[1..] == p;
  }

  /** Resolving a resolved path changes nothing. */
  lemma NormIdempotent(p: Path)
    ensures Norm(Norm(p)) == Norm(p)
  {
    NormOfPlain(Norm(p));
  }

  /** ".//x" is the relative file "x", not the absolute "/x". */
  lemma DotSlashSlashIsRelative()
    ensures Norm(".//x") == "x"
  {
    assert "/x"[1..] == "x";
    assert DropSlashes("/x") == "x";
    assert "//x"[1..] == "/x";
    assert DropSlashes("//x") == "x";
    assert ".//x"[1..] == "//x";
    NormOfPlain("x");
  }

  /** A path that does not start with "./" is already in resolved form. */
  lemma NormOfPlain(p: Path)
    requires !(|p| >= 2 && p[0] == '.' && p[1] == '/')
    ensures Norm(p) == p
  {
  }
}
