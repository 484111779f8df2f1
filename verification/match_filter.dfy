/** The download policy handed to the video downloader as its match filter:
    a video is refused when its metadata reports a duration longer than
    two minutes. The filter returns a message to refuse and `None` to
    accept. */
module MatchFilter {
  import opened Outcomes

  /** The numeric metadata fields the downloader passes to the filter; a
      field may be missing or present with the value `None`. Durations are
      Python ints or floats, both of which `real` covers. */
  type Info = map<string, Option<real>>

  /** The ceiling in seconds, written `60 * 2` in the code. */
  const MaxSeconds: int := 60 * 2

  const TooLongMessage: string := "The video is too longer"

  /** `info.get('duration')`. */
  function Duration(info: Info): Option<real> {
    if "duration" in info then info["duration"] else None
  }

  /** Python truthiness of a number. */
  predicate Truthy(x: real) {
    x != 0.0
  }

  /** Reading the duration back after setting it gives what was set. */
  lemma DurationReadsUpdate(info: Info, v: Option<real>)
    ensures Duration(info["duration" := v]) == v
  {
  }

  /** Setting any other field leaves the duration as it was. */
  lemma DurationIgnoresOtherFields(info: Info, field: string, v: Option<real>)
    requires field != "duration"
    ensures Duration(info[field := v]) == Duration(info)
  {
  }

  /** `shorter_than_ten_minute(info, incomplete=...)`. The `incomplete`
      flag is accepted and ignored, as in the code. */
  function ShorterThanTenMinute(info: Info, incomplete: bool): (refusal: Option<string>)
    ensures refusal.Some? <==>
      "duration" in info && info["duration"].Some? && info["duration"].value > 120.0
    ensures refusal.Some? ==> refusal.value == TooLongMessage
  {
    var duration := Duration(info);
    if duration.Some? && Truthy(duration.value) && duration.value > MaxSeconds as real
    then Some(TooLongMessage)
    else None
  }

  /** A video without duration metadata, or whose duration is `None` or
      zero, is never refused. */
  lemma UnknownOrZeroDurationAccepted(info: Info, incomplete: bool)
    requires Duration(info) == None || Duration(info) == Some(0.0)
    ensures ShorterThanTenMinute(info, incomplete) == None
  {
  }

  /** The ceiling is inclusive: exactly 120 seconds is accepted, and any
      longer duration is refused. */
  lemma CeilingIsInclusive(incomplete: bool)
    ensures ShorterThanTenMinute(map["duration" := Some(120.0)], incomplete) == None
    ensures forall d: real :: d > 120.0 ==>
      ShorterThanTenMinute(map["duration" := Some(d)], incomplete) == Some(TooLongMessage)
  {
  }

  /** Refusal is monotone in the duration: if a video is refused, every
      longer one is refused too. */
  lemma RefusalMonotone(info: Info, longer: real, incomplete: bool)
    requires ShorterThanTenMinute(info, incomplete).Some?
    requires Duration(info).Some? && Duration(info).value <= longer
    ensures ShorterThanTenMinute(info["duration" := Some(longer)], incomplete).Some?
  {
  }

  /** The filter depends on nothing but the duration field. */
  lemma OnlyDurationMatters(a: Info, b: Info, incomplete: bool, incomplete': bool)
    requires Duration(a) == Duration(b)
    ensures ShorterThanTenMinute(a, incomplete) == ShorterThanTenMinute(b, incomplete')
  {
  }
}
