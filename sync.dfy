/** The click handler on the player window: it re-marks the playlist so that
    exactly the songs titled like the current song are flagged as playing. */
module PlayingSync {
  import opened Songs
  import opened Cursor

  /** The playlist after re-marking it against the current song's title. */
  function Synced(s: seq<Song>, title: string): (r: seq<Song>)
    ensures SameSongs(s, r)
    ensures forall i :: 0 <= i < |r| ==> (r[i].playing <==> r[i].title == title)
  {
    seq(|s|, i requires 0 <= i < |s| => s[i].(playing := s[i].title == title))
  }

  /** The in-place loop over the playlist: each song is flagged iff its
      title equals the current song's title; nothing else changes. */
  method SyncPlaying(playList: array<Song>, currentTitle: string)
    modifies playList
    ensures playList[..] == Synced(old(playList[..]), currentTitle)
  {
    for i := 0 to playList.Length
      invariant forall j :: 0 <= j < i ==>
        playList[j] == old(playList[j]).(playing := old(playList[j]).title == currentTitle)
      invariant forall j :: i <= j < playList.Length ==> playList[j] == old(playList[j])
    {
      if playList[i].title == currentTitle {
        playList[i] := playList[i].(playing := true);
      } else {
        playList[i] := playList[i].(playing := false);
      }
    }
  }

  /** With distinct titles, re-marking against the title of song `j` leaves
      `j` as the only flagged song, so the cursor then starts from `j`. */
  lemma SyncFlagsOnlySelected(s: seq<Song>, j: int)
    requires DistinctTitles(s) && 0 <= j < |s|
    ensures OnlyFlag(Synced(s, s[j].title), j)
    ensures LastPlaying(Synced(s, s[j].title)) == j
  {
    var r := Synced(s, s[j].title);
    forall k | 0 <= k < |s| ensures r[k].playing <==> k == j {
      assert r[k].title == s[k].title by {
        assert r[k].(playing := false) == s[k].(playing := false);
      }
    }
    LastPlayingOfOnlyFlag(r, j);
  }

  /** With distinct titles and exactly one song flagged, re-marking against
      that song's title changes nothing. */
  lemma SyncOfOnlyFlagIsIdentity(s: seq<Song>, j: int)
    requires DistinctTitles(s) && OnlyFlag(s, j)
    ensures Synced(s, s[j].title) == s
  {
    var r := Synced(s, s[j].title);
    forall k | 0 <= k < |s| ensures r[k] == s[k] {
      assert r[k].(playing := false) == s[k].(playing := false);
    }
  }

  /** A cursor move keeps the songs' titles, so when the current song is the
      one `next_song` or `prev_song` handed back, the click handler leaves the
      moved playlist as it is. */
  lemma SyncAfterMoveIsIdentity(s: seq<Song>)
    requires |s| > 0 && DistinctTitles(s)
    ensures NextStep(s).picked.Some? ==>
      Synced(NextStep(s).playList, NextStep(s).picked.value.title) == NextStep(s).playList
    ensures PrevStep(s).picked.Some? ==>
      Synced(PrevStep(s).playList, PrevStep(s).picked.value.title) == PrevStep(s).playList
  {
    var n := NextStep(s);
    if n.picked.Some? {
      var i := LastPlaying(s) + 1;
      SameSongsKeepsDistinctTitles(s, n.playList);
      assert n.playList[i].title == n.picked.value.title by {
        assert n.playList[i].(playing := false) == s[i].(playing := false);
      }
      SyncOfOnlyFlagIsIdentity(n.playList, i);
    }
    var p := PrevStep(s);
    if p.picked.Some? {
      var i := LastPlaying(s) - 1;
      SameSongsKeepsDistinctTitles(s, p.playList);
      assert p.playList[i].title == p.picked.value.title by {
        assert p.playList[i].(playing := false) == s[i].(playing := false);
      }
      SyncOfOnlyFlagIsIdentity(p.playList, i);
    }
  }

  /** Lists that differ only in `playing` have the same titles. */
  lemma SameSongsKeepsDistinctTitles(s: seq<Song>, t: seq<Song>)
    requires SameSongs(s, t) && DistinctTitles(s)
    ensures DistinctTitles(t)
  {
    forall i, j | 0 <= i < j < |t| ensures t[i].title != t[j].title {
      assert t[i].(playing := false) == s[i].(playing := false);
      assert t[j].(playing := false) == s[j].(playing := false);
    }
  }
}
