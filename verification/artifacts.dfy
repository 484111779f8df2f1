/** The file store the pipeline works on, and the reset at the start of
    `create_screanshots` that deletes the files of a directory listing and
    leaves its directories alone. */
module Artifacts {
  import opened PosixPath

  /** What a file holds, as far as the pipeline distinguishes it. */
  datatype Content =
    | Opaque                          // anything the pipeline did not write
    | Still(video: Path, second: nat) // a frame saved from `video` at `second`
    | Mp3(video: Path)                // audio encoded from `video`

  datatype Node = Dir | File(content: Content)

  /** Entries keyed by their resolved path (`Norm`): every spelling of a
      path that resolves to the same key names the same entry. */
  type FileSystem = map<Path, Node>

  /** Every key of `fs` is its own resolved form. The pipeline's stores keep
      this: the reset only removes entries, and every write goes to a
      resolved key. A store with a key such as "./static/x" is not one the
      pipeline can reach. */
  ghost predicate InResolvedForm(fs: FileSystem) {
    forall p :: p in fs ==> Norm(p) == p
  }

  /** `os.path.isfile(p)`: the entry `p` resolves to exists and is a file,
      whichever spelling of the path is used. */
  predicate IsFile(fs: FileSystem, p: Path) {
    Norm(p) in fs && fs[Norm(p)].File?
  }

  /** Whether a relative path is a file does not depend on a leading "./". */
  lemma IsFileIgnoresDotSlash(fs: FileSystem, p: Path)
    requires !Absolute(p)
    ensures IsFile(fs, "./" + p) <==> IsFile(fs, p)
  {
    NormDropsDotSlash(p);
  }

  /** The glob spells a saved frame "./static/0_a.jpg" while the frame was
      written as "static/0_a.jpg": both resolve to the same entry, so the
      listing names the frame and the reset removes it. */
  lemma GlobSpellingNamesSavedFrame()
    ensures Resolved(["./static/0_a.jpg"]) == ["static/0_a.jpg"]
    ensures IsFile(map["static/0_a.jpg" := File(Opaque)], "./static/0_a.jpg")
  {
  }

  /** The resolved paths of a listing, in listing order. */
  function Resolved(listing: seq<Path>): (keys: seq<Path>)
    ensures |keys| == |listing|
    ensures forall i :: 0 <= i < |listing| ==> keys[i] == Norm(listing[i])
  {
    seq(|listing|, i requires 0 <= i < |listing| => Norm(listing[i]))
  }

  /** The reset loop: for every path of `listing` that is a file, remove
      it. Exactly the listed files disappear, however the listing spells
      their paths; directories, and entries the listing does not name,
      stay as they were. */
  method ResetArtifacts(fs: FileSystem, listing: seq<Path>) returns (fs': FileSystem)
    ensures fs'.Keys <= fs.Keys
    ensures forall p :: p in fs' ==> fs'[p] == fs[p]
    ensures forall p :: p in fs && p !in Resolved(listing) ==> p in fs'
    ensures forall p :: p in fs && fs[p] == Dir ==> p in fs'
    ensures forall p :: p in listing ==> !IsFile(fs', p)
    ensures forall p :: p in Resolved(listing) && p in fs && fs[p].File? ==> p !in fs'
    ensures InResolvedForm(fs) ==> InResolvedForm(fs')
  {
    fs' := fs;
    ghost var keys := Resolved(listing);
    for i := 0 to |listing|
      invariant fs'.Keys <= fs.Keys
      invariant forall p :: p in fs' ==> fs'[p] == fs[p]
      invariant forall p :: p in fs && p !in keys[..i] ==> p in fs'
      invariant forall p :: p in fs && fs[p] == Dir ==> p in fs'
      invariant forall p :: p in listing[..i] ==> !IsFile(fs', p)
    {
      var f := listing[i];
      if IsFile(fs', f) {
        fs' := fs' - {Norm(f)};
      }
      assert listing[..i + 1] == listing[..i] + [f];
      assert keys[..i + 1] == keys[..i] + [Norm(f)];
    }
    assert listing[..|listing|] == listing;
    assert keys[..|listing|] == keys;
    forall p | p in keys && p in fs && fs[p].File?
      ensures p !in fs'
    {
      var i :| 0 <= i < |listing| && keys[i] == p;
      assert !IsFile(fs', listing[i]);
    }
  }
}
