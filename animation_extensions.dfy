/**
  Last-keyframe lookup on an animation track.

  A track is the sequence of its keys in key-index order; each key has a
  playback time and a value. Times are only compared, so they are modelled
  as `real`. The engine's `Animation` object is seen through what these
  operations ask of it: for each track index, the keys of that track or the
  fact that the index names no track; the value it answers for a key of a
  track that does not exist; the index a track path resolves to; and the
  conversion of a key value to `T`.
*/
module AnimationExtensions {
  import opened Wrappers

  datatype Key<V> = Key(time: real, value: V)

  type Track<V> = seq<Key<V>>

  /**
    The engine's view of an animation. `tracks(i)` is `Some(keys)` when `i`
    is a track index and `None` otherwise; for such an index the engine
    reports a key count of -1 and answers `missingValue` (its default value)
    for any key value.
  */
  datatype Animation<V> = Animation(tracks: int -> Option<Track<V>>, missingValue: V)

  /** The kinds of track `FindTrack` distinguishes. */
  datatype TrackType =
    | ValueTrack | Position3DTrack | Rotation3DTrack | Scale3DTrack | BlendShapeTrack
    | MethodTrack | BezierTrack | AudioTrack | AnimationTrack

  /** The two exceptions `GetLastKeyAtTime` raises. */
  datatype KeyError =
    | ArgumentError          // the track has no keys
    | ArgumentOutOfRangeError // the playback time is negative

  function Max(a: int, b: int): (m: int) { if a < b then b else a }

  /** The engine's TrackGetKeyCount: the number of keys, or -1 for an index that names no track. */
  function KeyCount<V>(keys: Option<Track<V>>): (n: int) {
    match keys
    case Some(track) => |track|
    case None => -1
  }

  /** The engine's TrackGetKeyValue. */
  function KeyValue<V>(animation: Animation<V>, trackIndex: int, keyIdx: int): (v: V)
    requires animation.tracks(trackIndex).Some? ==> 0 <= keyIdx < |animation.tracks(trackIndex).value|
  {
    match animation.tracks(trackIndex)
    case Some(track) => track[keyIdx].value
    case None => animation.missingValue
  }

  /** Keys sorted by time, as the engine keeps them. */
  ghost predicate SortedByTime<V>(track: Track<V>) {
    forall i, j :: 0 <= i <= j < |track| ==> track[i].time <= track[j].time
  }

  /**
    The index at which a front-to-back scan first meets a key whose time is
    at or after `time`, or `|track|` when there is none.
  */
  function FirstKeyAtOrAfter<V>(track: Track<V>, time: real): (i: nat)
    ensures i <= |track|
    ensures forall j :: 0 <= j < i ==> track[j].time < time
    ensures i < |track| ==> track[i].time >= time
  {
    if track == [] then 0
    else if track[0].time >= time then 0
    else 1 + FirstKeyAtOrAfter(track[1..], time)
  }

  /**
    What `GetLastKeyAtTime` computes from what the engine reports for a track
    index and a playback time. For an index that names no track the key count
    is -1, which is not 0, so no exception is raised and the scan never runs.
  */
  function LastKeyAtTime<V>(keys: Option<Track<V>>, time: real): (r: Result<int, KeyError>) {
    var keyCount := KeyCount(keys);
    if keyCount == 0 then Failure(ArgumentError)
    else if time < 0.0 then Failure(ArgumentOutOfRangeError)
    else
      match keys
      case None => Success(0)
      case Some(track) =>
        var i := FirstKeyAtOrAfter(track, time);
        if i < |track| then Success(Max(i - 1, 0)) else Success(0)
  }

  /**
    GetLastKeyAtTime: the empty-track check comes first, then the time check,
    then a linear scan over the reported key count that stops at the first
    key at or after `time`.
  */
  method GetLastKeyAtTime<V>(animation: Animation<V>, trackIndex: int, time: real)
    returns (r: Result<int, KeyError>)
    ensures r == LastKeyAtTime(animation.tracks(trackIndex), time)
    ensures animation.tracks(trackIndex) == Some([]) ==> r == Failure(ArgumentError)
    ensures animation.tracks(trackIndex) != Some([]) && time < 0.0 ==> r == Failure(ArgumentOutOfRangeError)
    ensures animation.tracks(trackIndex) != Some([]) && time >= 0.0 ==> r.Success?
    ensures animation.tracks(trackIndex).None? && time >= 0.0 ==> r == Success(0)
    ensures r.Success? && animation.tracks(trackIndex).Some? ==>
      0 <= r.value < |animation.tracks(trackIndex).value|
  {
    var keys := animation.tracks(trackIndex);
    var keyCount := KeyCount(keys);
    if keyCount == 0 {
      return Failure(ArgumentError);
    }
    if time < 0.0 {
      return Failure(ArgumentOutOfRangeError);
    }
    var keyIdx := 0;
    while keyIdx < keyCount
      invariant 0 <= keyIdx
      invariant keys.Some? ==> keyIdx <= |keys.value|
      invariant keys.Some? ==> forall j :: 0 <= j < keyIdx ==> keys.value[j].time < time
    {
      var keyTime := keys.value[keyIdx].time;
      if keyTime >= time {
        return Success(Max(keyIdx - 1, 0));
      }
      keyIdx := keyIdx + 1;
    }
    return Success(0);
  }

  /** TryGetLastKeyAtTime: the exceptions of GetLastKeyAtTime become `false` with index 0. */
  method TryGetLastKeyAtTime<V>(animation: Animation<V>, trackIndex: int, time: real)
    returns (found: bool, index: int)
    ensures found <==> LastKeyAtTime(animation.tracks(trackIndex), time).Success?
    ensures found ==> index == LastKeyAtTime(animation.tracks(trackIndex), time).value
    ensures !found ==> index == 0
    ensures found <==> animation.tracks(trackIndex) != Some([]) && time >= 0.0
  {
    var r := GetLastKeyAtTime(animation, trackIndex, time);
    if r.Success? {
      found, index := true, r.value;
    } else {
      found, index := false, 0;
    }
  }

  /**
    GetLastKeyValueAtTime by track index: the value of the key GetLastKeyAtTime
    chooses, or the engine's default value for an index that names no track.
  */
  method GetLastKeyValueAtTime<V>(animation: Animation<V>, trackIndex: int, time: real)
    returns (r: Result<V, KeyError>)
    ensures r.Failure? <==> LastKeyAtTime(animation.tracks(trackIndex), time).Failure?
    ensures r.Failure? ==> r.error == LastKeyAtTime(animation.tracks(trackIndex), time).error
    ensures r.Success? && animation.tracks(trackIndex).Some? ==>
      var track := animation.tracks(trackIndex).value;
      0 <= LastKeyAtTime(Some(track), time).value < |track| &&
      r.value == track[LastKeyAtTime(Some(track), time).value].value
    ensures r.Success? && animation.tracks(trackIndex).None? ==> r.value == animation.missingValue
  {
    var keyIdx := GetLastKeyAtTime(animation, trackIndex, time);
    if keyIdx.Failure? {
      return Failure(keyIdx.error);
    }
    r := Success(KeyValue(animation, trackIndex, keyIdx.value));
  }

  /**
    GetLastKeyValueAtTime by track path: the track index comes from `findTrack`
    (the engine's FindTrack), then as by index.
  */
  method GetLastKeyValueAtPath<V>(animation: Animation<V>, findTrack: (string, TrackType) -> int,
                                  trackPath: string, time: real, trackType: TrackType)
    returns (r: Result<V, KeyError>)
    ensures var keys := animation.tracks(findTrack(trackPath, trackType));
      && (r.Failure? <==> LastKeyAtTime(keys, time).Failure?)
      && (r.Failure? ==> r.error == LastKeyAtTime(keys, time).error)
      && (r.Success? && keys.Some? ==>
            0 <= LastKeyAtTime(keys, time).value < |keys.value| &&
            r.value == keys.value[LastKeyAtTime(keys, time).value].value)
      && (r.Success? && keys.None? ==> r.value == animation.missingValue)
  {
    var trackIndex := findTrack(trackPath, trackType);
    var keyIdx := GetLastKeyAtTime(animation, trackIndex, time);
    if keyIdx.Failure? {
      return Failure(keyIdx.error);
    }
    r := Success(KeyValue(animation, trackIndex, keyIdx.value));
  }

  /**
    The generic GetLastKeyValueAtTime<T> by track path: as the path overload,
    with the key value converted by `convert` (the engine's Variant.As<T>).
  */
  method GetLastKeyValueAtPathAs<V, T>(animation: Animation<V>, findTrack: (string, TrackType) -> int,
                                       convert: V -> T, trackPath: string, time: real,
                                       trackType: TrackType)
    returns (r: Result<T, KeyError>)
    ensures var keys := animation.tracks(findTrack(trackPath, trackType));
      && (r.Failure? <==> LastKeyAtTime(keys, time).Failure?)
      && (r.Failure? ==> r.error == LastKeyAtTime(keys, time).error)
      && (r.Success? && keys.Some? ==>
            0 <= LastKeyAtTime(keys, time).value < |keys.value| &&
            r.value == convert(keys.value[LastKeyAtTime(keys, time).value].value))
      && (r.Success? && keys.None? ==> r.value == convert(animation.missingValue))
  {
    var trackIndex := findTrack(trackPath, trackType);
    var keyIdx := GetLastKeyAtTime(animation, trackIndex, time);
    if keyIdx.Failure? {
      return Failure(keyIdx.error);
    }
    var variantValue := KeyValue(animation, trackIndex, keyIdx.value);
    r := Success(convert(variantValue));
  }

  // Properties of the lookup.

  /**
    The errors come exactly from a track with no keys (checked first) and a
    negative time; an index that names no track raises neither.
  */
  lemma ErrorConditions<V>(keys: Option<Track<V>>, time: real)
    ensures LastKeyAtTime(keys, time) == Failure(ArgumentError) <==> keys == Some([])
    ensures LastKeyAtTime(keys, time) == Failure(ArgumentOutOfRangeError) <==> keys != Some([]) && time < 0.0
    ensures LastKeyAtTime(keys, time).Success? <==> keys != Some([]) && time >= 0.0
  {
  }

  /** For an index that names no track and a non-negative time, the result is key 0, not an error. */
  lemma MissingTrackGivesZero<V>(keys: Option<Track<V>>, time: real)
    requires keys.None? && time >= 0.0
    ensures LastKeyAtTime(keys, time) == Success(0)
  {
  }

  /** A successful lookup on a track is a valid key index: never -1, never past the end. */
  lemma ResultIsKeyIndex<V>(track: Track<V>, time: real)
    requires LastKeyAtTime(Some(track), time).Success?
    ensures 0 <= LastKeyAtTime(Some(track), time).value < |track|
  {
  }

  /**
    When some key is at or after `time`, the result is one before the first
    such key, or 0 when that key is the first.
  */
  lemma StopIndex<V>(track: Track<V>, time: real, i: nat)
    requires time >= 0.0
    requires i < |track| && track[i].time >= time
    requires forall j :: 0 <= j < i ==> track[j].time < time
    ensures LastKeyAtTime(Some(track), time) == Success(Max(i - 1, 0))
  {
  }

  /** A query at or before the first key's time gives key 0. */
  lemma AtOrBeforeFirstKey<V>(track: Track<V>, time: real)
    requires |track| > 0 && 0.0 <= time <= track[0].time
    ensures LastKeyAtTime(Some(track), time) == Success(0)
  {
  }

  /**
    When the scan stops at a key i >= 1, the result is i - 1, a key strictly
    before `time`, and the key right after it is at or after `time`.
  */
  lemma StopAfterFirstKey<V>(track: Track<V>, time: real)
    requires time >= 0.0
    requires 1 <= FirstKeyAtOrAfter(track, time) < |track|
    ensures LastKeyAtTime(Some(track), time).Success?
    ensures var k := LastKeyAtTime(Some(track), time).value;
      k == FirstKeyAtOrAfter(track, time) - 1 &&
      track[k].time < time && track[k + 1].time >= time
  {
  }

  /** When every key is before `time`, the result is 0, not the last key. */
  lemma AllKeysBefore<V>(track: Track<V>, time: real)
    requires |track| > 0 && time >= 0.0
    requires forall j :: 0 <= j < |track| ==> track[j].time < time
    ensures LastKeyAtTime(Some(track), time) == Success(0)
    ensures |track| > 1 ==> LastKeyAtTime(Some(track), time) != Success(|track| - 1)
  {
  }

  /**
    On a time-sorted track whose first key is before `time` and some key is at
    or after it, the result is the latest key strictly before `time`.
  */
  lemma SortedGivesLatestKeyBefore<V>(track: Track<V>, time: real, later: nat)
    requires SortedByTime(track)
    requires time >= 0.0 && |track| > 0 && track[0].time < time
    requires later < |track| && track[later].time >= time
    ensures LastKeyAtTime(Some(track), time).Success?
    ensures var k := LastKeyAtTime(Some(track), time).value;
      0 <= k < |track| && track[k].time < time &&
      forall j :: k < j < |track| ==> track[j].time >= time
  {
  }
}
