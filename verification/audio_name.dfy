/** `get_audio_filename`: the path of the mp3 that the transcription step
    extracts from a video, obtained by cutting the path at its last dot
    and appending ".mp3". The cut is made on the whole path string, not
    only its last component. */
module AudioName {
  import opened PyStr

  const Mp3Suffix: string := ".mp3"

  /** `video_filename.rsplit('.', 1)[0] + '.mp3'`. */
  function GetAudioFilename(videoFilename: string): (audio: string)
    ensures EndsWith(audio, Mp3Suffix)
    ensures '.' !in videoFilename ==> audio == videoFilename + Mp3Suffix
    ensures forall k :: IsLast(videoFilename, '.', k) ==> audio == videoFilename[..k] + Mp3Suffix
  {
    RSplitHead(videoFilename, '.') + Mp3Suffix
  }

  /** Deriving the audio name of an audio name changes nothing: the last
      dot of the result is the one in ".mp3". */
  lemma GetAudioFilenameIdempotent(videoFilename: string)
    ensures GetAudioFilename(GetAudioFilename(videoFilename)) == GetAudioFilename(videoFilename)
  {
  }

  /** A video under "./movie/" whose name has an extension gets its audio
      beside it, with only the extension replaced. */
  lemma ReplacesOnlyLastExtension()
    ensures GetAudioFilename("./movie/clip.v1.mp4") == "./movie/clip.v1.mp3"
  {
    var p := "./movie/clip.v1.mp4";
    assert IsLast(p, '.', 15);
  }

  /** Because the cut is made on the whole path, a file name without a dot
      under a relative directory loses everything after the "." of "./". */
  lemma DotlessNameUnderRelativeDirectory()
    ensures GetAudioFilename("./movie/clip") == ".mp3"
  {
  }
}
