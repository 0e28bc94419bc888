/** The playlist cursor: `prev_song` and `next_song`. Each clears every
    `playing` flag while remembering the last flagged index, then either
    reports that it is already at an end (None) or flags the neighbour and
    returns a copy of it. */
module Cursor {
  import opened Songs

  /** The list with every `playing` flag cleared and nothing else changed. */
  function Unflagged(s: seq<Song>): seq<Song>
  {
    seq(|s|, i requires 0 <= i < |s| => s[i].(playing := false))
  }

  /** `this_index` after the scan: the index of the LAST flagged song, or 0
      when no song is flagged. */
  function LastPlaying(s: seq<Song>): (k: nat)
    ensures |s| == 0 ==> k == 0
    ensures |s| > 0 ==> k < |s|
    ensures forall j :: k < j < |s| ==> !s[j].playing
    ensures k < |s| && !s[k].playing ==> k == 0 && NoFlag(s)
  {
    if |s| == 0 then 0
    else if s[|s| - 1].playing then |s| - 1
    else LastPlaying(s[..|s| - 1])
  }

  /** With exactly one song flagged, the scan finds that song. */
  lemma LastPlayingOfOnlyFlag(s: seq<Song>, i: int)
    requires OnlyFlag(s, i)
    ensures LastPlaying(s) == i
  {
    var k := LastPlaying(s);
    assert s[i].playing;
    assert s[k].playing <==> k == i;
  }

  /** The playlist after a cursor move and the song handed back. */
  datatype Step = Step(playList: seq<Song>, picked: Option<Song>)

  /** What `next_song` does to a non-empty playlist. */
  function NextStep(s: seq<Song>): (r: Step)
    requires |s| > 0
    ensures SameSongs(s, r.playList)
    ensures r.picked.None? <==> LastPlaying(s) == |s| - 1
    ensures r.picked.None? ==> NoFlag(r.playList)
    ensures r.picked.Some? ==>
      LastPlaying(s) + 1 < |s| &&
      r.picked.value == s[LastPlaying(s) + 1].(playing := true) &&
      OnlyFlag(r.playList, LastPlaying(s) + 1)
  {
    var t := LastPlaying(s);
    var cleared := Unflagged(s);
    if t == |s| - 1 then Step(cleared, None)
    else
      var song := cleared[t + 1].(playing := true);
      Step(cleared[t + 1 := song], Some(song))
  }

  /** What `prev_song` does to a non-empty playlist. */
  function PrevStep(s: seq<Song>): (r: Step)
    requires |s| > 0
    ensures SameSongs(s, r.playList)
    ensures r.picked.None? <==> LastPlaying(s) == 0
    ensures r.picked.None? ==> NoFlag(r.playList)
    ensures r.picked.Some? ==>
      LastPlaying(s) > 0 &&
      r.picked.value == s[LastPlaying(s) - 1].(playing := true) &&
      OnlyFlag(r.playList, LastPlaying(s) - 1)
  {
    var t := LastPlaying(s);
    var cleared := Unflagged(s);
    if t == 0 then Step(cleared, None)
    else
      var song := cleared[t - 1].(playing := true);
      Step(cleared[t - 1 := song], Some(song))
  }

  /** The scan both operations start with: clears every flag in place and
      returns the index of the last song that was flagged (0 if none). */
  method ClearPlaying(playList: array<Song>) returns (thisIndex: nat)
    modifies playList
    ensures thisIndex == LastPlaying(old(playList[..]))
    ensures playList[..] == Unflagged(old(playList[..]))
  {
    thisIndex := 0;
    for k := 0 to playList.Length
      invariant thisIndex == LastPlaying(old(playList[..])[..k])
      invariant playList[..k] == Unflagged(old(playList[..])[..k])
      invariant playList[k..] == old(playList[..])[k..]
    {
      ghost var before := old(playList[..]);
      assert before[..k + 1][..k] == before[..k];
      if playList[k].playing {
        thisIndex := k;
        playList[k] := playList[k].(playing := false);
      }
      assert playList[..k + 1] == playList[..k] + [playList[k]];
    }
    assert old(playList[..])[..playList.Length] == old(playList[..]);
    assert playList[..playList.Length] == playList[..];
  }

  /** `next_song`: moves the flag to the song after the last flagged one, or
      returns None when that song is the last of the list. */
  method NextSong(playList: array<Song>) returns (r: Option<Song>)
    requires playList.Length > 0
    modifies playList
    ensures Step(playList[..], r) == NextStep(old(playList[..]))
  {
    var thisIndex := ClearPlaying(playList);
    var max := playList.Length - 1;
    if thisIndex == max {
      r := None;
    } else {
      var nextIndex := thisIndex + 1;
      playList[nextIndex] := playList[nextIndex].(playing := true);
      r := Some(playList[nextIndex]);
    }
  }

  /** `prev_song`: moves the flag to the song before the last flagged one, or
      returns None when that song is the first of the list (or none is flagged). */
  method PrevSong(playList: array<Song>) returns (r: Option<Song>)
    requires playList.Length > 0
    modifies playList
    ensures Step(playList[..], r) == PrevStep(old(playList[..]))
  {
    var thisIndex := ClearPlaying(playList);
    if thisIndex == 0 {
      r := None;
    } else {
      var prevIndex := thisIndex - 1;
      playList[prevIndex] := playList[prevIndex].(playing := true);
      r := Some(playList[prevIndex]);
    }
  }

  /** With exactly one song flagged, `next_song` followed by `prev_song`
      restores the playlist and hands back the song that was current. */
  lemma PrevUndoesNext(s: seq<Song>, i: int)
    requires OnlyFlag(s, i) && i < |s| - 1
    ensures NextStep(s).picked == Some(s[i + 1].(playing := true))
    ensures PrevStep(NextStep(s).playList) == Step(s, Some(s[i]))
  {
    LastPlayingOfOnlyFlag(s, i);
    var n := NextStep(s).playList;
    assert LastPlaying(n) == i + 1;
    var p := PrevStep(n);
    assert p.playList == s by {
      forall j | 0 <= j < |s| ensures p.playList[j] == s[j] {
        assert p.playList[j].(playing := false) == s[j].(playing := false);
      }
    }
  }

  /** With exactly one song flagged, `prev_song` followed by `next_song`
      restores the playlist and hands back the song that was current. */
  lemma NextUndoesPrev(s: seq<Song>, i: int)
    requires OnlyFlag(s, i) && i > 0
    ensures PrevStep(s).picked == Some(s[i - 1].(playing := true))
    ensures NextStep(PrevStep(s).playList) == Step(s, Some(s[i]))
  {
    LastPlayingOfOnlyFlag(s, i);
    var p := PrevStep(s).playList;
    assert LastPlaying(p) == i - 1;
    var n := NextStep(p);
    assert n.playList == s by {
      forall j | 0 <= j < |s| ensures n.playList[j] == s[j] {
        assert n.playList[j].(playing := false) == s[j].(playing := false);
      }
    }
  }

  /** When no song is flagged `this_index` stays 0, so `next_song` skips the
      first song and flags the second. */
  lemma NextWithNoFlagPicksSecond(s: seq<Song>)
    requires |s| >= 2 && NoFlag(s)
    ensures NextStep(s).picked == Some(s[1].(playing := true))
    ensures OnlyFlag(NextStep(s).playList, 1)
  {
    assert !s[LastPlaying(s)].playing;
  }

  /** When no song is flagged, `prev_song` reports the first song. */
  lemma PrevWithNoFlagIsNone(s: seq<Song>)
    requires |s| > 0 && NoFlag(s)
    ensures PrevStep(s) == Step(s, None)
  {
    assert !s[LastPlaying(s)].playing;
    var p := PrevStep(s).playList;
    assert p == s by {
      forall j | 0 <= j < |s| ensures p[j] == s[j] {
        assert p[j].(playing := false) == s[j].(playing := false);
      }
    }
  }

  /** At the end of a playlist of two or more songs, `next_song` returns None
      and clears the marker; pressing it again then flags the second song. */
  lemma NextPastEndRestartsAtSecond(s: seq<Song>)
    requires |s| >= 2 && s[|s| - 1].playing
    ensures NextStep(s).picked == None
    ensures NextStep(NextStep(s).playList).picked == Some(s[1].(playing := true))
  {
    var n := NextStep(s).playList;
    NextWithNoFlagPicksSecond(n);
    assert n[1].(playing := true) == s[1].(playing := true) by {
      assert n[1].(playing := false) == s[1].(playing := false);
    }
  }
}
