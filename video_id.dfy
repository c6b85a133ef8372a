/**
 * The identifier extractor `extractVideoId` of main.ts.
 *
 * The source matches the unanchored pattern
 *   (?:https?://)?(?:www\.)?(?:youtube\.com/watch\?v=|youtu\.be/)([^&]+)
 * and returns group 1. The optional scheme and `www.` prefixes only move the
 * start of the match; what is captured is decided by the leftmost place where
 * one of the two markers is followed by a character other than `&`. This
 * module defines the extractor by that substring search; module IdPattern
 * proves it equal to the pattern's own leftmost-match semantics.
 */
module VideoId {
  import opened Wrappers

  const WatchMarker: string := "youtube.com/watch?v="
  const ShortMarker: string := "youtu.be/"

  /** `w` occurs in `s` starting at index `i`. */
  predicate OccursAt(s: string, i: nat, w: string) {
    i + |w| <= |s| && s[i..i + |w|] == w
  }

  /** A character other than `&` sits at index `k`: the group `[^&]+` can start there. */
  predicate IdCanStart(s: string, k: nat) {
    k < |s| && s[k] != '&'
  }

  /** The marker at index `i` of `s` that is followed by a character other than `&`, if any. */
  function MarkerAt(s: string, i: nat): Option<string> {
    if OccursAt(s, i, WatchMarker) && IdCanStart(s, i + |WatchMarker|) then Some(WatchMarker)
    else if OccursAt(s, i, ShortMarker) && IdCanStart(s, i + |ShortMarker|) then Some(ShortMarker)
    else None
  }

  /** The longest prefix of `s` without `&`: what the greedy group `[^&]+` captures. */
  function TakeId(s: string): (id: string)
    ensures |id| <= |s| && id == s[..|id|]
    ensures '&' !in id
    ensures |id| == |s| || s[|id|] == '&'
  {
    if s == [] || s[0] == '&' then [] else [s[0]] + TakeId(s[1..])
  }

  /** The leftmost index at or after `from` where a marker is followed by a non-`&` character. */
  function FindMarker(s: string, from: nat): (r: Option<nat>)
    ensures r.Some? ==> from <= r.value < |s| && MarkerAt(s, r.value).Some?
    ensures forall j :: from <= j < (if r.Some? then r.value else |s|) ==> MarkerAt(s, j).None?
    decreases |s| - from
  {
    if from >= |s| then None
    else if MarkerAt(s, from).Some? then Some(from)
    else FindMarker(s, from + 1)
  }

  /** The identifier captured after the usable marker at `m`. */
  function IdAfter(s: string, m: nat): string
    requires MarkerAt(s, m).Some?
  {
    TakeId(s[m + |MarkerAt(s, m).value|..])
  }

  /** The extractor: the identifier after the leftmost usable marker, or none. */
  function ExtractVideoId(url: string): (r: Option<string>)
    ensures r.Some? ==> r.value != [] && '&' !in r.value
    ensures r.None? <==> forall j :: 0 <= j < |url| ==> MarkerAt(url, j).None?
  {
    match FindMarker(url, 0)
    case None => None
    case Some(m) => Some(IdAfter(url, m))
  }

  /** Every usable marker starts with the letter `y`. */
  lemma MarkerStartsWithY(s: string, i: nat)
    requires MarkerAt(s, i).Some?
    ensures i < |s| && s[i] == 'y'
  {
    var w := MarkerAt(s, i).value;
    assert s[i..i + |w|][0] == s[i];
  }

  /** A marker search that meets a usable marker at `m`, with none in [from, m), stops at `m`. */
  lemma FindMarkerAt(s: string, from: nat, m: nat)
    requires from <= m && MarkerAt(s, m).Some?
    requires forall j :: from <= j < m ==> MarkerAt(s, j).None?
    ensures FindMarker(s, from) == Some(m)
  {
    MarkerStartsWithY(s, m);
  }

  /** If `'&'` does not occur in `s`, the whole of `s` is captured. */
  lemma TakeIdWhole(s: string)
    requires '&' !in s
    ensures TakeId(s) == s
  {
  }

  /** The capture stops at the first `&`. */
  lemma TakeIdUpToAmp(id: string, rest: string)
    requires '&' !in id
    ensures TakeId(id + "&" + rest) == id
  {
    var s := id + "&" + rest;
    assert forall k :: 0 <= k < |id| ==> s[k] == id[k];
    assert s[|id|] == '&';
    assert s[..|id|] == id;
  }

  /**
   * When `extractVideoId` returns `id`, the input holds one of the markers
   * immediately followed by `id`, that occurrence of `id` ends at `&` or at the
   * end of the input, and no usable marker occurs further left.
   */
  lemma ExtractVideoIdLocated(url: string, id: string) returns (m: nat, marker: string)
    requires ExtractVideoId(url) == Some(id)
    ensures marker == WatchMarker || marker == ShortMarker
    ensures OccursAt(url, m, marker + id)
    ensures m + |marker| + |id| == |url| || url[m + |marker| + |id|] == '&'
    ensures forall j :: 0 <= j < m ==> MarkerAt(url, j).None?
  {
    m := FindMarker(url, 0).value;
    marker := MarkerAt(url, m).value;
    var k := m + |marker|;
    var rest := url[k..];
    assert id == TakeId(rest);
    OccursFollowedBy(url, m, marker, id);
  }

  /** `marker` at `m` followed by a prefix `id` of what comes after it: `marker + id` occurs at `m`. */
  lemma OccursFollowedBy(s: string, m: nat, marker: string, id: string)
    requires OccursAt(s, m, marker)
    requires |id| <= |s| - (m + |marker|) && id == s[m + |marker|..][..|id|]
    ensures OccursAt(s, m, marker + id)
  {
    var k := m + |marker|;
    assert s[m..k + |id|] == s[m..k] + s[k..k + |id|];
  }

  /** Markers are found the same way after any text placed in front. */
  lemma MarkerAtShift(pre: string, s: string, j: nat)
    ensures MarkerAt(pre + s, |pre| + j) == MarkerAt(s, j)
  {
    var t := pre + s;
    var i := |pre| + j;
    if j + |WatchMarker| <= |s| {
      SliceShift(pre, s, j, |WatchMarker|);
    }
    if j + |ShortMarker| <= |s| {
      SliceShift(pre, s, j, |ShortMarker|);
    }
    if j + |WatchMarker| < |s| {
      assert t[i + |WatchMarker|] == s[j + |WatchMarker|];
    }
    if j + |ShortMarker| < |s| {
      assert t[i + |ShortMarker|] == s[j + |ShortMarker|];
    }
  }

  lemma SliceShift(pre: string, s: string, j: nat, n: nat)
    requires j + n <= |s|
    ensures (pre + s)[|pre| + j..|pre| + j + n] == s[j..j + n]
  {
    var shifted, original := (pre + s)[|pre| + j..|pre| + j + n], s[j..j + n];
    forall k | 0 <= k < n ensures shifted[k] == original[k] {
      assert shifted[k] == (pre + s)[|pre| + j + k];
    }
  }

  /** With `y`-free text in front, the positions without a usable marker shift along. */
  lemma NoMarkerShift(pre: string, s: string, hi: nat)
    requires 'y' !in pre && hi <= |s|
    requires forall j :: 0 <= j < hi ==> MarkerAt(s, j).None?
    ensures forall j :: 0 <= j < |pre| + hi ==> MarkerAt(pre + s, j).None?
  {
    var t := pre + s;
    forall j | 0 <= j < |pre| + hi ensures MarkerAt(t, j).None? {
      if j < |pre| {
        if MarkerAt(t, j).Some? {
          MarkerStartsWithY(t, j);
        }
      } else {
        MarkerAtShift(pre, s, j - |pre|);
      }
    }
  }

  /** The identifier after a marker does not depend on the text in front. */
  lemma IdAfterShift(pre: string, s: string, m: nat)
    requires MarkerAt(s, m).Some?
    ensures MarkerAt(pre + s, |pre| + m) == MarkerAt(s, m)
    ensures IdAfter(pre + s, |pre| + m) == IdAfter(s, m)
  {
    MarkerAtShift(pre, s, m);
    var k := m + |MarkerAt(s, m).value|;
    assert (pre + s)[|pre| + k..] == s[k..];
  }

  /**
   * Text without the letter `y` in front of a URL never changes the extracted
   * identifier; in particular the optional `http://`, `https://` and `www.`
   * prefixes of the pattern only move where the match starts.
   */
  lemma ExtractIgnoresPrefix(pre: string, s: string)
    requires 'y' !in pre
    ensures ExtractVideoId(pre + s) == ExtractVideoId(s)
  {
    var t := pre + s;
    match FindMarker(s, 0)
    case None =>
      NoMarkerShift(pre, s, |s|);
      assert FindMarker(t, 0) == None;
      assert ExtractVideoId(t) == None == ExtractVideoId(s);
    case Some(m) =>
      NoMarkerShift(pre, s, m);
      IdAfterShift(pre, s, m);
      FindMarkerAt(t, 0, |pre| + m);
      assert ExtractVideoId(t) == Some(IdAfter(t, |pre| + m));
      assert ExtractVideoId(s) == Some(IdAfter(s, m));
  }

  /** `youtu.be/dQw4w9WgXcQ` yields `dQw4w9WgXcQ`. */
  lemma BareShortLinkExample()
    ensures ExtractVideoId("youtu.be/dQw4w9WgXcQ") == Some("dQw4w9WgXcQ")
  {
    var s := "youtu.be/dQw4w9WgXcQ";
    assert s[0..|ShortMarker|] == ShortMarker;
    assert MarkerAt(s, 0) == Some(ShortMarker);
    FindMarkerAt(s, 0, 0);
    assert s[9..] == "dQw4w9WgXcQ";
    TakeIdWhole("dQw4w9WgXcQ");
  }

  /** `youtube.com/watch?v=dQw4w9WgXcQ&list=xyz` yields only the `v` value `dQw4w9WgXcQ`. */
  lemma BareWatchLinkExample()
    ensures ExtractVideoId("youtube.com/watch?v=dQw4w9WgXcQ&list=xyz") == Some("dQw4w9WgXcQ")
  {
    var s := "youtube.com/watch?v=dQw4w9WgXcQ&list=xyz";
    assert s[0..|WatchMarker|] == WatchMarker;
    assert MarkerAt(s, 0) == Some(WatchMarker);
    FindMarkerAt(s, 0, 0);
    assert s[20..] == "dQw4w9WgXcQ" + "&" + "list=xyz";
    TakeIdUpToAmp("dQw4w9WgXcQ", "list=xyz");
  }

  /** The capture runs to the next `&` only: a `?t=` query after a short link is part of the identifier. */
  lemma ShortLinkWithQueryExample()
    ensures ExtractVideoId("youtu.be/abc?t=10") == Some("abc?t=10")
  {
    var s := "youtu.be/abc?t=10";
    assert s[0..|ShortMarker|] == ShortMarker;
    assert MarkerAt(s, 0) == Some(ShortMarker);
    FindMarkerAt(s, 0, 0);
    assert s[9..] == "abc?t=10";
    TakeIdWhole("abc?t=10");
  }

  /**
   * The short link `https://youtu.be/dQw4w9WgXcQ` and the watch link
   * `https://www.youtube.com/watch?v=dQw4w9WgXcQ&list=xyz` both yield
   * `dQw4w9WgXcQ` (each URL is written as scheme-and-host prefix + rest).
   */
  lemma FullLinkExamples()
    ensures ExtractVideoId("https://" + "youtu.be/dQw4w9WgXcQ") == Some("dQw4w9WgXcQ")
    ensures ExtractVideoId("https://www." + "youtube.com/watch?v=dQw4w9WgXcQ&list=xyz") == Some("dQw4w9WgXcQ")
  {
    ExtractIgnoresPrefix("https://", "youtu.be/dQw4w9WgXcQ");
    BareShortLinkExample();
    ExtractIgnoresPrefix("https://www.", "youtube.com/watch?v=dQw4w9WgXcQ&list=xyz");
    BareWatchLinkExample();
  }

  /** A link to another site, with neither marker in it, yields no identifier. */
  lemma NoMarkerExample()
    ensures ExtractVideoId("https://vimeo.com/123") == None
  {
    var url := "https://vimeo.com/123";
    assert 'y' !in url;
    forall j | 0 <= j < |url| ensures MarkerAt(url, j).None? {
      if MarkerAt(url, j).Some? { MarkerStartsWithY(url, j); }
    }
  }
}
