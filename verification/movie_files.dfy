/** How the names the pipeline derives for one downloaded video relate:
    videos live under `./movie/`, frames take the stem from `splitext`
    and `basename`, and the audio name comes from cutting the whole path
    at its last dot. */
module MovieFiles {
  import opened PyStr
  import opened PosixPath
  import opened AudioName
  import opened Screenshots

  /** `MP4_PATH`, the directory downloads are written to. */
  const MovieDir: Path := "./movie/"

  /** `os.path.join(MP4_PATH, name)` for a file name from the directory. */
  function MoviePath(name: string): (p: Path)
    requires '/' !in name
    ensures Basename(p) == name
  {
    var p := Join(MovieDir, name);
    assert p == MovieDir + name;
    BasenameUnique(p, name);
    p
  }

  /** The last dot of a path ending in ".mp4" is the one of ".mp4". */
  lemma LastDotOfMp4(p: Path)
    requires EndsWith(p, ".mp4")
    ensures RFind(p, '.') == |p| - 4
  {
    assert p[|p| - 4..] == ".mp4";
    assert IsLast(p, '.', |p| - 4);
    RFindUnique(p, '.', |p| - 4);
  }

  /** A path ending in ".mp4" whose name has an extension splits off
      exactly ".mp4". */
  lemma Mp4Extension(p: Path)
    requires EndsWith(p, ".mp4") && HasExtension(p)
    ensures SplitExt(p).ext == ".mp4"
  {
    var split := SplitExt(p);
    var k := |split.root|;
    RFindUnique(p, '.', k);
    LastDotOfMp4(p);
    assert split.ext == p[|p| - 4..];
  }

  /** A path ending in ".mp4" gets ".mp3" in place of ".mp4". */
  lemma Mp4AudioName(p: Path)
    requires EndsWith(p, ".mp4")
    ensures GetAudioFilename(p) == p[..|p| - 4] + ".mp3"
  {
  }

  /** A name with a non-dot before its ".mp4" has an extension. */
  lemma NameHasExtension(name: string)
    requires '/' !in name && EndsWith(name, ".mp4")
    requires !DotsOnly(name, 0, |name| - 4)
    ensures HasExtension(MoviePath(name))
  {
    var p, n, d := MoviePath(name), |name| - 4, |MovieDir|;
    var j :| 0 <= j < n && name[j] != '.';
    assert p == MovieDir + name;
    assert forall m :: d <= m < |p| ==> p[m] == name[m - d];
    assert p[d + j] != '.' && p[d + n] == '.';
    assert NoSlashFrom(p, d + j);
  }

  /** The path of a video ends in its name. */
  lemma MoviePathEndsWithName(name: string)
    requires '/' !in name && EndsWith(name, ".mp4")
    ensures MoviePath(name) == MovieDir + name
    ensures EndsWith(MoviePath(name), ".mp4")
  {
  }

  /** The stem of a path ending in ".mp4" with an extension is its name
      without ".mp4". */
  lemma StemOfMp4(p: Path, name: string)
    requires Basename(p) == name && EndsWith(name, ".mp4")
    requires EndsWith(p, ".mp4") && HasExtension(p)
    ensures Stem(p) == name[..|name| - 4]
  {
    Mp4Extension(p);
    var stem := Stem(p);
    assert name == stem + ".mp4";
    assert name[..|name| - 4] == stem;
  }

  /** Every `*.mp4` download gets its audio beside it, named with ".mp3"
      in place of ".mp4". */
  lemma MovieAudioPath(name: string)
    requires '/' !in name && EndsWith(name, ".mp4")
    ensures GetAudioFilename(MoviePath(name)) == MovieDir + name[..|name| - 4] + ".mp3"
  {
    var p := MoviePath(name);
    MoviePathEndsWithName(name);
    Mp4AudioName(p);
    assert p[..|p| - 4] == MovieDir + name[..|name| - 4];
  }

  /** For an ordinary `*.mp4` download the frame stem is the file name
      without ".mp4". */
  lemma OrdinaryMovieStem(name: string)
    requires '/' !in name && EndsWith(name, ".mp4")
    requires !DotsOnly(name, 0, |name| - 4)
    ensures Stem(MoviePath(name)) == name[..|name| - 4]
  {
    var p := MoviePath(name);
    MoviePathEndsWithName(name);
    NameHasExtension(name);
    StemOfMp4(p, name);
  }

  /** For an ordinary `*.mp4` download, the frames and the audio are named
      after the same stem. */
  lemma OrdinaryMovieNames(name: string)
    requires '/' !in name && EndsWith(name, ".mp4")
    requires !DotsOnly(name, 0, |name| - 4)
    ensures GetAudioFilename(MoviePath(name)) == MovieDir + Stem(MoviePath(name)) + ".mp3"
  {
    OrdinaryMovieStem(name);
    MovieAudioPath(name);
  }

  /** A file named only by dots before ".mp4" (".mp4", "..mp4") has no
      extension for `splitext`, so its frames carry the whole file name,
      ".mp4" included. */
  lemma DotOnlyMovieStem(name: string)
    requires '/' !in name && EndsWith(name, ".mp4")
    requires DotsOnly(name, 0, |name| - 4)
    ensures Stem(MoviePath(name)) == name
  {
    MoviePathEndsWithName(name);
    DotOnlyNameHasNoExtension(name);
  }

  /** Only dots before the dot of ".mp4" make that dot a leading one. */
  lemma DotOnlyNameHasNoExtension(name: string)
    requires '/' !in name && EndsWith(name, ".mp4")
    requires DotsOnly(name, 0, |name| - 4)
    ensures !HasExtension(MoviePath(name))
  {
    var p, n, d := MoviePath(name), |name| - 4, |MovieDir|;
    MoviePathEndsWithName(name);
    assert p[d - 1] == '/';
    assert forall m :: d <= m < |p| ==> p[m] == name[m - d];
    // every character of the last component up to the dot of ".mp4" is a
    // dot, and no dot follows it
    assert forall m :: d <= m <= d + n ==> p[m] == '.';
    assert p[d + n + 1] == 'm' && p[d + n + 2] == 'p' && p[d + n + 3] == '4';
    forall j, k | 0 <= j < k < |p| && p[k] == '.' && NoSlashFrom(p, j)
      ensures p[j] == '.'
    {
      assert d <= j by {
        assert p[d - 1] == '/';
      }
      assert k <= d + n;
    }
  }

  /** `glob(MP4_PATH + '*.mp4')` does not return names that start with a
      dot, and every other name it returns is ordinary: it has a non-dot
      before ".mp4". */
  lemma GlobbedNameIsOrdinary(name: string)
    requires EndsWith(name, ".mp4") && name[0] != '.'
    ensures !DotsOnly(name, 0, |name| - 4)
  {
    assert name[|name| - 4] == '.';
  }

  /** Different ordinary downloads have different stems, so their frames
      never share a file name. */
  lemma DistinctMoviesDistinctFrames(name: string, name': string, i: nat, j: nat)
    requires '/' !in name && EndsWith(name, ".mp4") && !DotsOnly(name, 0, |name| - 4)
    requires '/' !in name' && EndsWith(name', ".mp4") && !DotsOnly(name', 0, |name'| - 4)
    requires name != name'
    ensures Stem(MoviePath(name)) != Stem(MoviePath(name'))
    ensures FrameFile(i, Stem(MoviePath(name))) != FrameFile(j, Stem(MoviePath(name')))
  {
    OrdinaryMovieStem(name);
    OrdinaryMovieStem(name');
    assert name == name[..|name| - 4] + ".mp4";
    assert name' == name'[..|name'| - 4] + ".mp4";
    if FrameFile(i, Stem(MoviePath(name))) == FrameFile(j, Stem(MoviePath(name'))) {
      FrameFileInjective(i, j, Stem(MoviePath(name)), Stem(MoviePath(name')));
    }
  }
}
