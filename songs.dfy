/** The track record of the player's playlist and the optional value the
    playlist cursor hands back. */
module Songs {

  /** An optional value, as returned by the cursor operations. */
  datatype Option<T> = None | Some(value: T)

  /** Play time in seconds, read from the container's metadata. No operation
      modelled here computes with it; it is carried through unchanged. */
  type Duration = real

  /** One track of the playlist. `playing` marks the song the list view shows
      as current. */
  datatype Song = Song(
    title: string,
    artist: string,
    album: string,
    duration: Duration,
    playing: bool,
    date: string,
    file: string)

  /** The two lists have the same length and differ at most in `playing`. */
  predicate SameSongs(s: seq<Song>, t: seq<Song>)
  {
    |s| == |t| &&
    forall i :: 0 <= i < |s| ==> s[i].(playing := false) == t[i].(playing := false)
  }

  /** Song `i` is flagged and no other song is. */
  predicate OnlyFlag(s: seq<Song>, i: int)
  {
    0 <= i < |s| && forall j :: 0 <= j < |s| ==> (s[j].playing <==> j == i)
  }

  /** No song is flagged. */
  predicate NoFlag(s: seq<Song>)
  {
    forall j :: 0 <= j < |s| ==> !s[j].playing
  }

  /** No two songs share a title. */
  predicate DistinctTitles(s: seq<Song>)
  {
    forall i, j :: 0 <= i < j < |s| ==> s[i].title != s[j].title
  }
}
