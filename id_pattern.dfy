/**
 * The pattern of `extractVideoId`, read as a backtracking matcher reads it:
 *   (?:https?://)?(?:www\.)?(?:youtube\.com/watch\?v=|youtu\.be/)([^&]+)
 * `String.prototype.match` without the global flag tries start positions
 * from the left; at each start it tries the optional groups present before
 * absent (and `s?` with the `s` first), the alternation left to right, and
 * `[^&]+` greedily. Nothing follows the group, so the greedy run is kept.
 * This is an independent reference for the capture, proved equal to
 * VideoId.ExtractVideoId.
 */
module IdPattern {
  import opened Wrappers
  import opened VideoId

  /** The first alternative that succeeds. */
  function OrElse(first: Option<string>, second: Option<string>): Option<string> {
    if first.Some? then first else second
  }

  /** The literal `lit` at `q`, then `([^&]+)`: the captured run, if at least one character. */
  function AfterLiteral(s: string, q: nat, lit: string): Option<string> {
    if OccursAt(s, q, lit) && IdCanStart(s, q + |lit|) then Some(TakeId(s[q + |lit|..])) else None
  }

  /** `(?:youtube\.com/watch\?v=|youtu\.be/)([^&]+)` at `q`. */
  function AfterHost(s: string, q: nat): Option<string> {
    OrElse(AfterLiteral(s, q, WatchMarker), AfterLiteral(s, q, ShortMarker))
  }

  /** `(?:www\.)?` then the rest, at `q`. */
  function AfterScheme(s: string, q: nat): Option<string> {
    OrElse(if OccursAt(s, q, "www.") then AfterHost(s, q + 4) else None, AfterHost(s, q))
  }

  /** The whole pattern anchored at `p`: `(?:https?://)?` then the rest. */
  function CaptureAt(s: string, p: nat): (r: Option<string>)
    ensures r.Some? ==> r.value != [] && '&' !in r.value
  {
    AfterSchemeShape(s, p);
    AfterSchemeShape(s, p + 7);
    AfterSchemeShape(s, p + 8);
    OrElse(if OccursAt(s, p, "https://") then AfterScheme(s, p + 8) else None,
      OrElse(if OccursAt(s, p, "http://") then AfterScheme(s, p + 7) else None,
        AfterScheme(s, p)))
  }

  /** The capture of the leftmost match that starts at `p` or later (see MatchFromNone and MatchFromSome). */
  function MatchFrom(s: string, p: nat): (r: Option<string>)
    ensures r.Some? ==> r.value != [] && '&' !in r.value
    decreases |s| + 1 - p
  {
    if p > |s| then None
    else if CaptureAt(s, p).Some? then CaptureAt(s, p)
    else MatchFrom(s, p + 1)
  }

  /**
   * Matching the pattern without the global flag and taking group 1: the
   * capture of the leftmost start position where the pattern matches, or
   * none when it matches nowhere. Group 1 is never empty and holds no `&`.
   */
  function RegexCapture(url: string): (r: Option<string>)
    ensures r.Some? ==> r.value != [] && '&' !in r.value
  {
    MatchFrom(url, 0)
  }

  /** When the scan from `p` finds nothing, the pattern matches at no start position from `p` on. */
  lemma {:induction false} MatchFromNone(s: string, p: nat)
    requires MatchFrom(s, p).None?
    ensures forall j :: p <= j <= |s| ==> CaptureAt(s, j).None?
    decreases |s| + 1 - p
  {
    if p <= |s| {
      var here := CaptureAt(s, p);
      assert here.None?;
      assert MatchFrom(s, p + 1) == MatchFrom(s, p);
      MatchFromNone(s, p + 1);
      forall j | p <= j <= |s|
        ensures CaptureAt(s, j).None?
      {
        if j == p {
          assert CaptureAt(s, j) == here;
        }
      }
    }
  }

  /**
   * When the scan from `p` finds a capture, it is the one at the leftmost
   * start position `q` at or after `p`: nothing matches in [p, q).
   */
  lemma {:induction false} MatchFromSome(s: string, p: nat) returns (q: nat)
    requires MatchFrom(s, p).Some?
    ensures p <= q <= |s| && CaptureAt(s, q) == MatchFrom(s, p)
    ensures forall j :: p <= j < q ==> CaptureAt(s, j).None?
    decreases |s| + 1 - p
  {
    var here := CaptureAt(s, p);
    if here.Some? {
      q := p;
    } else {
      assert MatchFrom(s, p + 1) == MatchFrom(s, p);
      q := MatchFromSome(s, p + 1);
      forall j | p <= j < q
        ensures CaptureAt(s, j).None?
      {
        if j == p {
          assert CaptureAt(s, j) == here;
        }
      }
    }
  }

  /** What the marker alternation captures is never empty and holds no `&`. */
  lemma AfterHostShape(s: string, q: nat)
    ensures AfterHost(s, q).Some? ==> AfterHost(s, q).value != [] && '&' !in AfterHost(s, q).value
  {
    if AfterHost(s, q).Some? {
      var lit := if AfterLiteral(s, q, WatchMarker).Some? then WatchMarker else ShortMarker;
      assert AfterHost(s, q) == AfterLiteral(s, q, lit);
      var rest := s[q + |lit|..];
      assert rest != [] && rest[0] != '&';
    }
  }

  /** What `(?:www\.)?` and the marker alternation capture is never empty and holds no `&`. */
  lemma AfterSchemeShape(s: string, q: nat)
    ensures AfterScheme(s, q).Some? ==> AfterScheme(s, q).value != [] && '&' !in AfterScheme(s, q).value
  {
    AfterHostShape(s, q);
    AfterHostShape(s, q + 4);
  }

  /** A literal without `y` occupies positions where no marker can start. */
  lemma NoMarkerUnder(s: string, q: nat, lit: string)
    requires OccursAt(s, q, lit) && 'y' !in lit
    ensures forall j :: q <= j < q + |lit| ==> MarkerAt(s, j).None?
  {
    forall j | q <= j < q + |lit| ensures MarkerAt(s, j).None? {
      if MarkerAt(s, j).Some? {
        MarkerStartsWithY(s, j);
      }
    }
  }

  /** A literal occurring at `q` fixes the character at `q`. */
  lemma OccursHead(s: string, q: nat, lit: string)
    requires OccursAt(s, q, lit) && |lit| > 0
    ensures s[q] == lit[0]
  {
    assert s[q..q + |lit|][0] == s[q];
  }

  /** The alternation of the two markers at `q` succeeds exactly where a usable marker is. */
  lemma AfterHostIsMarker(s: string, q: nat)
    ensures AfterHost(s, q).Some? <==> MarkerAt(s, q).Some?
    ensures MarkerAt(s, q).Some? ==> AfterHost(s, q) == Some(IdAfter(s, q))
  {
  }

  /** Where a usable marker starts, the anchored pattern captures the run after it. */
  lemma CaptureAtMarker(s: string, m: nat)
    requires MarkerAt(s, m).Some?
    ensures CaptureAt(s, m) == Some(IdAfter(s, m))
  {
    MarkerStartsWithY(s, m);
    if OccursAt(s, m, "https://") { OccursHead(s, m, "https://"); }
    if OccursAt(s, m, "http://") { OccursHead(s, m, "http://"); }
    if OccursAt(s, m, "www.") { OccursHead(s, m, "www."); }
    AfterHostIsMarker(s, m);
  }

  /** `(?:www\.)?` then a marker, matched at `q`: a marker at some `m >= q`, none in [q, m). */
  lemma AfterSchemeFindsMarker(s: string, q: nat, id: string) returns (m: nat)
    requires AfterScheme(s, q) == Some(id)
    ensures q <= m && MarkerAt(s, m).Some?
    ensures id == IdAfter(s, m)
    ensures forall j :: q <= j < m ==> MarkerAt(s, j).None?
  {
    if OccursAt(s, q, "www.") && AfterHost(s, q + 4).Some? {
      m := q + 4;
      NoMarkerUnder(s, q, "www.");
    } else {
      m := q;
    }
    AfterHostIsMarker(s, m);
  }

  /** A match anchored at `p` captures the run after the first usable marker at or after `p`. */
  lemma CaptureAtFindsMarker(s: string, p: nat, id: string) returns (m: nat)
    requires CaptureAt(s, p) == Some(id)
    ensures p <= m && MarkerAt(s, m).Some?
    ensures id == IdAfter(s, m)
    ensures forall j :: p <= j < m ==> MarkerAt(s, j).None?
  {
    var https := if OccursAt(s, p, "https://") then AfterScheme(s, p + 8) else None;
    var http := if OccursAt(s, p, "http://") then AfterScheme(s, p + 7) else None;
    assert CaptureAt(s, p) == OrElse(https, OrElse(http, AfterScheme(s, p)));
    if https.Some? {
      m := SchemeThenMarker(s, p, "https://", id);
    } else if http.Some? {
      m := SchemeThenMarker(s, p, "http://", id);
    } else {
      m := AfterSchemeFindsMarker(s, p, id);
    }
  }

  /** A scheme literal at `p` followed by the rest of the pattern: the marker lies past the scheme. */
  lemma SchemeThenMarker(s: string, p: nat, scheme: string, id: string) returns (m: nat)
    requires OccursAt(s, p, scheme) && 'y' !in scheme
    requires AfterScheme(s, p + |scheme|) == Some(id)
    ensures p <= m && MarkerAt(s, m).Some?
    ensures id == IdAfter(s, m)
    ensures forall j :: p <= j < m ==> MarkerAt(s, j).None?
  {
    NoMarkerUnder(s, p, scheme);
    m := AfterSchemeFindsMarker(s, p + |scheme|, id);
  }

  /** Scanning start positions from any `p` up to the leftmost usable marker gives the extractor's answer. */
  lemma {:induction false} MatchFromAgrees(s: string, p: nat)
    requires p <= (match FindMarker(s, 0) case Some(m) => m case None => |s|)
    ensures MatchFrom(s, p) == ExtractVideoId(s)
    decreases |s| + 1 - p
  {
    var first := FindMarker(s, 0);
    var here := CaptureAt(s, p);
    if here.Some? {
      var m := CaptureAtFindsMarker(s, p, here.value);
      // m is a usable marker, so the leftmost one is at or before it; none lies in [p, m)
      assert first.Some? && first.value == m;
      assert MatchFrom(s, p) == here;
      assert ExtractVideoId(s) == Some(IdAfter(s, m));
    } else if first.Some? && p == first.value {
      CaptureAtMarker(s, p);
    } else if p < |s| {
      assert MatchFrom(s, p) == MatchFrom(s, p + 1);
      MatchFromAgrees(s, p + 1);
    } else {
      assert MatchFrom(s, p + 1) == None;
    }
  }

  /** The substring search of ExtractVideoId captures exactly what the pattern captures, on every input. */
  lemma ExtractVideoIdIsRegexCapture(url: string)
    ensures ExtractVideoId(url) == RegexCapture(url)
  {
    MatchFromAgrees(url, 0);
  }
}
