/** `create_screanshots` and `append_apps`: derive the video's stem, reset
    the artifact directory, save one frame per whole second of the video
    as `static/{i}_{stem}.jpg`, and append `./app/static/{i}_{stem}.jpg`
    to the module-wide gallery list `apps`, which is never cleared. */
module Screenshots {
  import opened Decimal
  import opened PosixPath
  import opened Artifacts

  /** Where frames are saved, and the prefix the display uses for them. */
  const StaticDir: string := "static/"
  const AppStaticDir: string := "./app/static/"

  /** `os.path.basename(os.path.splitext(mp4_file_name)[0])`: the last
      component of the video's path without its extension. */
  function Stem(mp4FileName: Path): (stem: string)
    ensures '/' !in stem
    ensures !HasExtension(mp4FileName) ==> stem == Basename(mp4FileName)
    ensures HasExtension(mp4FileName) ==>
      Basename(mp4FileName) == stem + SplitExt(mp4FileName).ext
  {
    var split := SplitExt(mp4FileName);
    var stem := Basename(split.root);
    assert HasExtension(mp4FileName) ==> Basename(mp4FileName) == stem + split.ext by {
      if HasExtension(mp4FileName) {
        assert forall i :: 0 <= i < |split.ext| ==> split.ext[i] == mp4FileName[|split.root| + i];
        BasenameOfExtended(split.root, split.ext);
      }
    }
    stem
  }

  /** Appending a component without slashes extends the basename by it. */
  lemma BasenameOfExtended(root: Path, ext: string)
    requires '/' !in ext
    ensures Basename(root + ext) == Basename(root) + ext
  {
    var p, b := root + ext, Basename(root);
    var name := b + ext;
    assert root[|root| - |b|..] == b;
    assert p[|root| - |b|..] == root[|root| - |b|..] + ext;
    assert '/' !in name by {
      assert forall c :: c in name ==> c in b || c in ext;
    }
    if |b| < |root| {
      assert p[|root| - |b| - 1] == root[|root| - |b| - 1];
    }
    BasenameUnique(p, name);
  }

  /** `int(clip.duration)` for a non-negative duration: the number of whole
      seconds, which `int` obtains by truncating toward zero. */
  function WholeSeconds(duration: real): (n: nat)
    requires duration >= 0.0
    ensures n as real <= duration < n as real + 1.0
  {
    duration.Floor
  }

  /** A 7.8 second video has frames for seconds 0 to 6. */
  lemma SevenPointEightSeconds()
    ensures WholeSeconds(7.8) == 7
  {
  }

  /** `name` reads back as the frame of second `i` of `stem`: the digits
      before its first underscore spell `i`, and the stem and ".jpg"
      follow. */
  predicate DecodesTo(name: string, i: nat, stem: string) {
    var d := |Str(i)|;
    && d < |name| && name[d] == '_'
    && AllDigits(name[..d]) && Parse(name[..d]) == i
    && name[d + 1..] == stem + ".jpg"
  }

  /** `f'{i}_{file}.jpg'`: the file name of the frame at second `i`. The
      name decodes back: the digits before its first underscore read as
      `i`, and what follows is the stem and ".jpg". */
  function FrameFile(i: nat, stem: string): (name: string)
    ensures DecodesTo(name, i, stem)
  {
    var digits := Str(i);
    var name := digits + "_" + stem + ".jpg";
    ParseStr(i);
    assert name[..|digits|] == digits;
    assert name[|digits| + 1..] == stem + ".jpg";
    name
  }

  /** `f'static/{screenshot_file}'`: where the frame is saved. */
  function SavePath(frameFile: string): Path {
    StaticDir + frameFile
  }

  /** A save path is already in resolved form, and the glob's "./"
      spelling of it resolves to it. */
  lemma SavePathResolved(frameFile: string)
    ensures Norm(SavePath(frameFile)) == SavePath(frameFile)
    ensures Norm("./" + SavePath(frameFile)) == SavePath(frameFile)
  {
    NormOfPlain(SavePath(frameFile));
    NormDropsDotSlash(SavePath(frameFile));
  }

  /** `f'./app/static/{screenshot_file}'`: how the gallery refers to a
      frame, namely by its save path under "./app/". */
  function AppPath(frameFile: string): (ref: Path)
    ensures ref == "./app/" + SavePath(frameFile)
  {
    AppStaticDir + frameFile
  }

  /** The frame name determines both the second and the stem: different
      seconds, or different videos' stems, never share a frame file. */
  lemma FrameFileInjective(i: nat, j: nat, stem: string, stem': string)
    requires FrameFile(i, stem) == FrameFile(j, stem')
    ensures i == j && stem == stem'
  {
    var name := FrameFile(i, stem);
    var m, n := |Str(i)|, |Str(j)|;
    assert m == n by {
      assert forall k :: 0 <= k < m ==> name[..m][k] == name[k] && name[k] != '_';
      assert forall k :: 0 <= k < n ==> name[..n][k] == name[k] && name[k] != '_';
    }
    assert stem + ".jpg" == stem' + ".jpg";
    assert stem == (stem + ".jpg")[..|stem|] == (stem' + ".jpg")[..|stem'|] == stem';
  }

  /** Different seconds of one video never share a frame file. */
  lemma FrameFileDistinct(i: nat, j: nat, stem: string)
    requires i != j
    ensures FrameFile(i, stem) != FrameFile(j, stem)
  {
  }

  /** `append_apps(path)`: the list grows by `path` at the end and nothing
      already in it moves. */
  function AppendApps(apps: seq<string>, path: string): (apps': seq<string>)
    ensures |apps'| == |apps| + 1
    ensures apps'[..|apps|] == apps
    ensures apps'[|apps|] == path
  {
    apps + [path]
  }

  /** The paths under `dir` of the frames of `n` whole seconds, in the
      order the loop produces them. */
  function FramePaths(dir: string, stem: string, n: nat): (paths: seq<Path>)
    ensures |paths| == n
    ensures forall k :: 0 <= k < n ==> paths[k] == dir + FrameFile(k, stem)
    decreases n
  {
    if n == 0 then [] else FramePaths(dir, stem, n - 1) + [dir + FrameFile(n - 1, stem)]
  }

  /** The gallery entries one run appends for `n` whole seconds. */
  function FrameEntries(stem: string, n: nat): seq<string> {
    FramePaths(AppStaticDir, stem, n)
  }

  /** One run never lists the same frame twice. */
  lemma FrameEntriesDistinct(stem: string, n: nat)
    ensures forall a, b :: 0 <= a < b < n ==> FrameEntries(stem, n)[a] != FrameEntries(stem, n)[b]
  {
    var entries := FrameEntries(stem, n);
    forall a, b | 0 <= a < b < n
      ensures entries[a] != entries[b]
    {
      assert entries[a][|AppStaticDir|..] == FrameFile(a, stem);
      assert entries[b][|AppStaticDir|..] == FrameFile(b, stem);
    }
  }

  /** The store after the frames of the first `n` seconds of `video` have
      been saved, one write after another. */
  function WithFrames(fs: FileSystem, video: Path, stem: string, n: nat): FileSystem
    decreases n
  {
    if n == 0 then fs
    else WithFrames(fs, video, stem, n - 1)[SavePath(FrameFile(n - 1, stem)) := File(Still(video, n - 1))]
  }

  /** Saving frames adds exactly the saved paths to the store. */
  lemma {:induction false} WithFramesKeys(fs: FileSystem, video: Path, stem: string, n: nat)
    ensures forall p :: p in WithFrames(fs, video, stem, n) <==> p in FramePaths(StaticDir, stem, n) || p in fs
    decreases n
  {
    if n > 0 {
      WithFramesKeys(fs, video, stem, n - 1);
      var q, before := SavePath(FrameFile(n - 1, stem)), FramePaths(StaticDir, stem, n - 1);
      assert FramePaths(StaticDir, stem, n) == before + [q];
      assert forall p :: p in before + [q] <==> p in before || p == q;
    }
  }

  /** Saving frames leaves every entry it does not write as it was. */
  lemma {:induction false} WithFramesKeepsOthers(fs: FileSystem, video: Path, stem: string, n: nat)
    ensures forall p :: p in fs && p !in FramePaths(StaticDir, stem, n) ==>
      p in WithFrames(fs, video, stem, n) && WithFrames(fs, video, stem, n)[p] == fs[p]
    decreases n
  {
    if n > 0 {
      WithFramesKeepsOthers(fs, video, stem, n - 1);
      var q, before := SavePath(FrameFile(n - 1, stem)), FramePaths(StaticDir, stem, n - 1);
      assert FramePaths(StaticDir, stem, n) == before + [q];
      assert forall p :: p in before + [q] <==> p in before || p == q;
    }
  }

  /** After saving `n` frames, each saved path holds the frame of its own
      second: no later write of the run overwrote it. */
  lemma {:induction false} WithFramesHoldsFrames(fs: FileSystem, video: Path, stem: string, n: nat)
    ensures forall k :: 0 <= k < n ==>
      var path := FramePaths(StaticDir, stem, n)[k];
      path in WithFrames(fs, video, stem, n) && WithFrames(fs, video, stem, n)[path] == File(Still(video, k))
    decreases n
  {
    if n > 0 {
      WithFramesHoldsFrames(fs, video, stem, n - 1);
      SavePathFresh(FramePaths(StaticDir, stem, n - 1), stem, n - 1);
    }
  }

  /** The path written at second `i` differs from every path written at an
      earlier second of the same run. */
  lemma SavePathFresh(saved: seq<Path>, stem: string, i: nat)
    requires |saved| == i
    requires forall k :: 0 <= k < i ==> saved[k] == SavePath(FrameFile(k, stem))
    ensures SavePath(FrameFile(i, stem)) !in saved
  {
    forall k | 0 <= k < i
      ensures saved[k] != SavePath(FrameFile(i, stem))
    {
      var name, name' := FrameFile(k, stem), FrameFile(i, stem);
      FrameFileDistinct(k, i, stem);
      assert saved[k][|StaticDir|..] == name;
      assert SavePath(name')[|StaticDir|..] == name';
    }
  }

  /** The frame loop of `create_screanshots`: for every whole second `i`
      below `duration`, save the frame of `video` at `i` under
      `static/{i}_{stem}.jpg` and append its gallery reference. Returns the
      store, the extended gallery list and the saved paths in write order. */
  method SaveFrames(video: Path, stem: string, duration: nat, fs: FileSystem, apps: seq<string>)
    returns (fs': FileSystem, apps': seq<string>, saved: seq<Path>)
    ensures apps' == apps + FrameEntries(stem, duration)
    ensures saved == FramePaths(StaticDir, stem, duration)
    ensures fs' == WithFrames(fs, video, stem, duration)
  {
    fs', apps', saved := fs, apps, [];
    for i := 0 to duration
      invariant apps' == apps + FrameEntries(stem, i)
      invariant saved == FramePaths(StaticDir, stem, i)
      invariant fs' == WithFrames(fs, video, stem, i)
    {
      var screenshotFile := FrameFile(i, stem);
      fs' := fs'[SavePath(screenshotFile) := File(Still(video, i))];
      assert FrameEntries(stem, i + 1) == FrameEntries(stem, i) + [AppPath(screenshotFile)];
      apps' := AppendApps(apps', AppPath(screenshotFile));
      assert FramePaths(StaticDir, stem, i + 1) == saved + [SavePath(screenshotFile)];
      saved := saved + [SavePath(screenshotFile)];
    }
  }

  /** `create_screanshots(mp4_file_name)`, with the video's whole-second
      duration `duration` (`int(clip.duration)`) and the reset listing
      `listing` (the glob's result) given. Returns the store after the
      reset and the frame writes, the extended gallery list, and the saved
      frame paths in the order they were written. */
  method CreateScreenshots(mp4FileName: Path, listing: seq<Path>, duration: nat,
                           fs: FileSystem, apps: seq<string>)
    returns (fs': FileSystem, apps': seq<string>, saved: seq<Path>)
    ensures |apps'| == |apps| + duration
    ensures apps'[..|apps|] == apps
    ensures forall k :: 0 <= k < duration ==>
      apps'[|apps| + k] == AppPath(FrameFile(k, Stem(mp4FileName)))
    ensures |saved| == duration
    ensures forall k :: 0 <= k < duration ==>
      saved[k] == SavePath(FrameFile(k, Stem(mp4FileName))) &&
      apps'[|apps| + k] == "./app/" + saved[k] &&
      saved[k] in fs' && fs'[saved[k]] == File(Still(mp4FileName, k))
    ensures forall p :: p in fs' <==> p in saved || (p in fs && !(p in Resolved(listing) && fs[p].File?))
    ensures forall p :: p in fs' && p !in saved ==> fs'[p] == fs[p]
    ensures InResolvedForm(fs) ==> InResolvedForm(fs')
  {
    var stem := Stem(mp4FileName);
    var cleared := ResetArtifacts(fs, listing);
    fs', apps', saved := SaveFrames(mp4FileName, stem, duration, cleared, apps);
    WithFramesKeys(cleared, mp4FileName, stem, duration);
    WithFramesKeepsOthers(cleared, mp4FileName, stem, duration);
    WithFramesHoldsFrames(cleared, mp4FileName, stem, duration);
    forall k | 0 <= k < duration
      ensures apps'[|apps| + k] == AppPath(FrameFile(k, stem)) == "./app/" + saved[k]
    {
      assert apps'[|apps| + k] == FrameEntries(stem, duration)[k];
    }
    assert forall p :: p in cleared <==> p in fs && !(p in Resolved(listing) && fs[p].File?);
    forall k | 0 <= k < duration
      ensures Norm(saved[k]) == saved[k]
    {
      SavePathResolved(FrameFile(k, stem));
    }
  }
}
