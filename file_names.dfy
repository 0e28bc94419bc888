/** File-name helpers: the music-file filter used when a directory is
    imported, and the title a song falls back to when its metadata has none. */
module FileNames {

  /** The recognised extensions, in the order both helpers try them. */
  const MusicExts: seq<string> := [".flac", ".mp3", ".wav", ".m4a"]

  /** `s` ends with `suffix`. */
  predicate EndsWith(s: string, suffix: string)
  {
    |suffix| <= |s| && s[|s| - |suffix|..] == suffix
  }

  /** The extension loop of `is_music_file`: true as soon as one extension
      is a suffix of `f`. */
  function EndsWithAny(f: string, exts: seq<string>): (b: bool)
    ensures b <==> exists i :: 0 <= i < |exts| && EndsWith(f, exts[i])
  {
    if exts == [] then false
    else EndsWith(f, exts[0]) || EndsWithAny(f, exts[1..])
  }

  /** `is_music_file`: `f` ends with one of the four music extensions. */
  function IsMusicFile(f: string): (b: bool)
    ensures b <==> EndsWith(f, ".flac") || EndsWith(f, ".mp3") ||
                   EndsWith(f, ".wav") || EndsWith(f, ".m4a")
  {
    assert MusicExts[0] == ".flac" && MusicExts[1] == ".mp3";
    assert MusicExts[2] == ".wav" && MusicExts[3] == ".m4a";
    EndsWithAny(f, MusicExts)
  }

  /** `t` is `pat` written zero or more times in a row. */
  predicate IsRepeat(t: string, pat: string)
    decreases |t|
  {
    t == [] || (|pat| > 0 && EndsWith(t, pat) && IsRepeat(t[..|t| - |pat|], pat))
  }

  /** One more copy of `pat` keeps a repetition a repetition. */
  lemma RepeatAppend(t: string, pat: string)
    requires |pat| > 0 && IsRepeat(t, pat)
    ensures IsRepeat(t + pat, pat)
  {
    assert (t + pat)[..|t + pat| - |pat|] == t;
    assert (t + pat)[|t + pat| - |pat|..] == pat;
  }

  /** A string that ends with `suffix` is its remaining prefix followed by `suffix`. */
  lemma SplitSuffix(s: string, suffix: string)
    requires EndsWith(s, suffix)
    ensures s == s[..|s| - |suffix|] + suffix
  {
  }

  /** Dropping a prefix of the left operand of a concatenation. */
  lemma DropConcat(a: string, b: string, k: nat)
    requires k <= |a|
    ensures (a + b)[k..] == a[k..] + b
  {
  }

  /** Rust's `trim_end_matches` with a string pattern: removes trailing
      occurrences of `pat` for as long as there are any. */
  function TrimEndMatches(s: string, pat: string): (r: string)
    ensures |r| <= |s| && r == s[..|r|]
    ensures |pat| > 0 ==> !EndsWith(r, pat)
    decreases |s|
  {
    if |pat| > 0 && EndsWith(s, pat) then TrimEndMatches(s[..|s| - |pat|], pat)
    else s
  }

  /** What `trim_end_matches` removes is a run of copies of `pat`. */
  lemma {:induction false} TrimRemovesCopies(s: string, pat: string)
    ensures IsRepeat(s[|TrimEndMatches(s, pat)|..], pat)
    decreases |s|
  {
    if |pat| > 0 && EndsWith(s, pat) {
      var rest := s[..|s| - |pat|];
      var r := TrimEndMatches(rest, pat);
      TrimRemovesCopies(rest, pat);
      SplitSuffix(s, pat);
      DropConcat(rest, pat, |r|);
      RepeatAppend(rest[|r|..], pat);
    }
  }

  /** The last `/`-separated segment of `path`, as `split("/")` followed by
      `last()`: the longest suffix of `path` that holds no `/`. */
  function LastSegment(path: string): (r: string)
    ensures '/' !in r
    ensures |r| <= |path| && r == path[|path| - |r|..]
    ensures |r| < |path| ==> path[|path| - |r| - 1] == '/'
  {
    if |path| == 0 then ""
    else if path[|path| - 1] == '/' then ""
    else LastSegment(path[..|path| - 1]) + [path[|path| - 1]]
  }

  /** The fold of `trim_end_matches` over `exts`, first extension first. */
  function StripExtensions(name: string, exts: seq<string>): (r: string)
    ensures |r| <= |name| && r == name[..|r|]
    ensures |exts| > 0 && |exts[|exts| - 1]| > 0 ==> !EndsWith(r, exts[|exts| - 1])
  {
    if exts == [] then name
    else StripExtensions(TrimEndMatches(name, exts[0]), exts[1..])
  }

  /** The loop of the title fallback: trims each extension of `exts` in
      turn, each one as often as it trails the name. */
  method TrimExtensions(name: string, exts: seq<string>) returns (r: string)
    ensures r == StripExtensions(name, exts)
  {
    r := name;
    for i := 0 to |exts|
      invariant StripExtensions(r, exts[i..]) == StripExtensions(name, exts)
    {
      assert exts[i..][1..] == exts[i + 1..];
      r := TrimEndMatches(r, exts[i]);
    }
    assert exts[|exts|..] == [];
  }

  /** The title a song gets from its file name when the metadata carries no
      title: the last path segment with the music extensions trimmed, in the
      order `.flac`, `.mp3`, `.wav`, `.m4a`. */
  method FallbackTitle(f: string) returns (name: string)
    ensures name == StripExtensions(LastSegment(f), MusicExts)
    ensures name == LastSegment(f)[..|name|]
    ensures '/' !in name
    ensures !EndsWith(name, ".m4a")
  {
    var segment := LastSegment(f);
    name := TrimExtensions(segment, MusicExts);
    MusicExtsDisjoint();
    PrefixKeepsNoSlash(segment, name);
  }

  /** A prefix of a string without `/` has none either. */
  lemma PrefixKeepsNoSlash(s: string, p: string)
    requires '/' !in s && |p| <= |s| && p == s[..|p|]
    ensures '/' !in p
  {
    forall j | 0 <= j < |p| ensures p[j] != '/' {
      assert s[j] == p[j];
    }
  }

  /** If `name` ends with extension `i` and with none before it, the fold
      strips it, so the result is strictly shorter. */
  lemma {:induction false} StripFirstMatch(name: string, exts: seq<string>, i: nat)
    requires i < |exts| && |exts[i]| > 0 && EndsWith(name, exts[i])
    requires forall j :: 0 <= j < i ==> !EndsWith(name, exts[j])
    ensures |StripExtensions(name, exts)| < |name|
  {
    var trimmed := TrimEndMatches(name, exts[0]);
    if i == 0 {
      assert |trimmed| < |name|;
    } else {
      assert trimmed == name;
      StripFirstMatch(name, exts[1..], i - 1);
    }
  }

  /** A suffix without `/` survives taking the last path segment. */
  lemma LastSegmentKeepsSuffix(path: string, suffix: string)
    requires EndsWith(path, suffix) && '/' !in suffix
    ensures EndsWith(LastSegment(path), suffix)
  {
    var r := LastSegment(path);
    assert forall k :: 0 <= k < |suffix| ==> path[|path| - |suffix| + k] == suffix[k];
    assert r[|r| - |suffix|..] == path[|path| - |suffix|..];
  }

  /** A string that ends with `a` cannot end with a `b` whose last character
      differs from that of `a`. */
  lemma OtherLastCharExcluded(s: string, a: string, b: string)
    requires |a| > 0 && |b| > 0 && EndsWith(s, a)
    requires a[|a| - 1] != b[|b| - 1]
    ensures !EndsWith(s, b)
  {
    assert s[|s| - |a|..][|a| - 1] == s[|s| - 1];
    assert |b| <= |s| ==> s[|s| - |b|..][|b| - 1] == s[|s| - 1];
  }

  /** Non-empty extensions without `/`, no two ending in the same character,
      so that a name ends with at most one of them. */
  predicate DisjointExts(exts: seq<string>)
  {
    (forall k :: 0 <= k < |exts| ==> |exts[k]| > 0 && '/' !in exts[k]) &&
    forall a, b :: 0 <= a < b < |exts| ==> exts[a][|exts[a]| - 1] != exts[b][|exts[b]| - 1]
  }

  /** The player's extension list is disjoint in that sense. */
  lemma MusicExtsDisjoint()
    ensures |MusicExts| == 4 && MusicExts[3] == ".m4a"
    ensures DisjointExts(MusicExts)
  {
    assert ".flac"[4] == 'c' && ".mp3"[3] == '3' && ".wav"[3] == 'v' && ".m4a"[3] == 'a';
  }

  /** If a path ends with extension `i` of a disjoint list, so does its last
      segment, and the segment ends with no other extension of the list. */
  lemma SegmentEndsWithOnly(f: string, exts: seq<string>, i: nat)
    requires DisjointExts(exts) && i < |exts| && EndsWith(f, exts[i])
    ensures EndsWith(LastSegment(f), exts[i])
    ensures forall j :: 0 <= j < |exts| && j != i ==> !EndsWith(LastSegment(f), exts[j])
  {
    var seg := LastSegment(f);
    LastSegmentKeepsSuffix(f, exts[i]);
    forall j | 0 <= j < |exts| && j != i ensures !EndsWith(seg, exts[j]) {
      OtherLastCharExcluded(seg, exts[i], exts[j]);
    }
  }

  /** A path ending with one of a disjoint list of extensions gets a title
      strictly shorter than its last segment. */
  lemma TitleDropsExtension(f: string, exts: seq<string>)
    requires DisjointExts(exts) && EndsWithAny(f, exts)
    ensures |StripExtensions(LastSegment(f), exts)| < |LastSegment(f)|
  {
    var i :| 0 <= i < |exts| && EndsWith(f, exts[i]);
    SegmentEndsWithOnly(f, exts, i);
    StripFirstMatch(LastSegment(f), exts, i);
  }

  /** Every file the import filter accepts gets a fallback title strictly
      shorter than its last path segment: its extension is stripped. */
  lemma MusicFileTitleDropsExtension(f: string)
    requires IsMusicFile(f)
    ensures |StripExtensions(LastSegment(f), MusicExts)| < |LastSegment(f)|
  {
    MusicExtsDisjoint();
    TitleDropsExtension(f, MusicExts);
  }

  /** The extensions are trimmed once each in a fixed order, so a name whose
      extensions come in another order keeps one of them. */
  lemma ExtensionCanRemain()
    ensures StripExtensions("x.flac.m4a", MusicExts) == "x.flac"
  {
    var name: string := "x.flac.m4a";
    var exts := MusicExts;
    assert exts[1..][1..][1..][1..] == [];
    assert TrimEndMatches(name, exts[0]) == name;
    assert TrimEndMatches(name, exts[1]) == name;
    assert TrimEndMatches(name, exts[2]) == name;
    assert TrimEndMatches(name, exts[3]) == "x.flac" by {
      assert name[..|name| - 4] == "x.flac";
    }
  }
}
