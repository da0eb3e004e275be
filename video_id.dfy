/**
 * The URL scanner `extract_video_id`: a search for the fixed pattern
 * `(?:v=|/)([0-9A-Za-z_-]{11})`, returning group 1 of the leftmost match.
 *
 * The pattern is written out directly rather than through a general regular
 * expression engine. `MatchAt` is what the pattern means at one index;
 * `SearchFrom` is the scan `re.search` performs, index by index, trying the
 * `v=` alternative before the `/` alternative.
 */
module VideoId {
  import opened Wrappers

  /** The `{11}` of the pattern: every identifier has this many characters. */
  const IdLength: nat := 11

  /** The character class `[0-9A-Za-z_-]`. */
  predicate IsIdChar(c: char) {
    ('0' <= c <= '9') || ('A' <= c <= 'Z') || ('a' <= c <= 'z') || c == '_' || c == '-'
  }

  predicate AllIdChars(t: string) {
    forall k :: 0 <= k < |t| ==> IsIdChar(t[k])
  }

  /** The alternative `v=` matches at index `i`, followed by `IdLength` class characters. */
  predicate VMatchAt(s: string, i: nat) {
    i + 2 + IdLength <= |s| && s[i] == 'v' && s[i + 1] == '=' && AllIdChars(s[i + 2 .. i + 2 + IdLength])
  }

  /** The alternative `/` matches at index `i`, followed by `IdLength` class characters. */
  predicate SlashMatchAt(s: string, i: nat) {
    i + 1 + IdLength <= |s| && s[i] == '/' && AllIdChars(s[i + 1 .. i + 1 + IdLength])
  }

  /** The whole pattern matches at index `i`. Nothing is required after the run. */
  predicate MatchAt(s: string, i: nat) {
    VMatchAt(s, i) || SlashMatchAt(s, i)
  }

  /** Group 1 of a match at `i`: the characters after the `v=` or the `/`. */
  function GroupAt(s: string, i: nat): (g: string)
    requires MatchAt(s, i)
    ensures |g| == IdLength && AllIdChars(g)
  {
    if VMatchAt(s, i) then s[i + 2 .. i + 2 + IdLength] else s[i + 1 .. i + 1 + IdLength]
  }

  /** `i` is where `re.search` reports its match: it matches, and no earlier index does. */
  predicate LeftmostMatch(s: string, i: nat) {
    MatchAt(s, i) && forall j :: 0 <= j < i ==> !MatchAt(s, j)
  }

  /**
   * Reads `n` class characters from index `j` on, one character at a time;
   * `None` at the first character outside the class or at the end of the input.
   */
  function ReadRun(s: string, j: nat, n: nat): (r: Option<string>)
    ensures r.Some? <==> j + n <= |s| && AllIdChars(s[j .. j + n])
    ensures r.Some? ==> r.value == s[j .. j + n]
    decreases n
  {
    if n == 0 then
      if j <= |s| then Some([]) else None
    else if j < |s| && IsIdChar(s[j]) then
      match ReadRun(s, j + 1, n - 1)
      case Some(rest) => Some([s[j]] + rest)
      case None => None
    else
      None
  }

  /**
   * The scan of `re.search` from index `i` on: at each index the `v=`
   * alternative is tried, then the `/` alternative, then the next index.
   */
  function SearchFrom(s: string, i: nat): (r: Option<string>)
    ensures r.None? ==> forall j :: i <= j < |s| ==> !MatchAt(s, j)
    ensures r.Some? ==>
      exists k :: i <= k < |s| && MatchAt(s, k) && r.value == GroupAt(s, k) &&
        forall j :: i <= j < k ==> !MatchAt(s, j)
    decreases |s| - i
  {
    if |s| <= i then
      None
    else if s[i] == 'v' && i + 1 < |s| && s[i + 1] == '=' && ReadRun(s, i + 2, IdLength).Some? then
      assert VMatchAt(s, i) && GroupAt(s, i) == ReadRun(s, i + 2, IdLength).value;
      ReadRun(s, i + 2, IdLength)
    else if s[i] == '/' && ReadRun(s, i + 1, IdLength).Some? then
      assert SlashMatchAt(s, i) && !VMatchAt(s, i);
      assert GroupAt(s, i) == ReadRun(s, i + 1, IdLength).value;
      ReadRun(s, i + 1, IdLength)
    else
      SearchFrom(s, i + 1)
  }

  /**
   * `extract_video_id`: the identifier captured by the leftmost match of the
   * pattern anywhere in `url`, or `None` when the pattern matches nowhere.
   */
  function ExtractVideoId(url: string): (r: Option<string>)
    ensures r.Some? ==> |r.value| == IdLength && AllIdChars(r.value)
    ensures r.None? <==> forall i :: 0 <= i < |url| ==> !MatchAt(url, i)
    ensures r.Some? ==> exists i :: LeftmostMatch(url, i) && r.value == GroupAt(url, i)
  {
    SearchFrom(url, 0)
  }

  /** At most one index is the leftmost match. */
  lemma LeftmostUnique(s: string, i: nat, k: nat)
    requires LeftmostMatch(s, i) && LeftmostMatch(s, k)
    ensures i == k
  {
  }

  /** The result is exactly the group of the leftmost match, whichever index that is. */
  lemma ExtractIsLeftmost(url: string, i: nat)
    requires LeftmostMatch(url, i)
    ensures ExtractVideoId(url) == Some(GroupAt(url, i))
  {
    var r := ExtractVideoId(url);
    assert MatchAt(url, i);
    assert r.Some?;
    var k: nat :| LeftmostMatch(url, k) && r.value == GroupAt(url, k);
    LeftmostUnique(url, i, k);
  }

  /** `w` stands in `s` as a contiguous piece starting at index `i`. */
  predicate OccursAt(s: string, i: nat, w: string) {
    i + |w| <= |s| && s[i .. i + |w|] == w
  }

  /** The group of a match at `i` stands in `s` right after the `v=` or the `/` at `i`. */
  lemma GroupOccurs(s: string, i: nat)
    requires MatchAt(s, i)
    ensures OccursAt(s, i, "v=" + GroupAt(s, i)) || OccursAt(s, i, "/" + GroupAt(s, i))
  {
    var id := GroupAt(s, i);
    if VMatchAt(s, i) {
      assert s[i .. i + 2 + |id|] == s[i .. i + 2] + s[i + 2 .. i + 2 + |id|];
      assert s[i .. i + 2] == "v=";
      assert OccursAt(s, i, "v=" + id);
    } else {
      assert s[i .. i + 1 + |id|] == [s[i]] + s[i + 1 .. i + 1 + |id|];
      assert OccursAt(s, i, "/" + id);
    }
  }

  /** The identifier returned stands in `url` right after `v=` or right after `/`. */
  lemma ExtractedIdOccurs(url: string)
    ensures ExtractVideoId(url).Some? ==>
      var id := ExtractVideoId(url).value;
      exists i: nat :: OccursAt(url, i, "v=" + id) || OccursAt(url, i, "/" + id)
  {
    if ExtractVideoId(url).Some? {
      var id := ExtractVideoId(url).value;
      var i: nat :| LeftmostMatch(url, i) && id == GroupAt(url, i);
      GroupOccurs(url, i);
    }
  }

  /** Conversely, an occurrence of `v=` or `/` followed by an identifier guarantees some result. */
  lemma OccurrenceGivesSome(url: string, i: nat, id: string)
    requires |id| == IdLength && AllIdChars(id)
    requires OccursAt(url, i, "v=" + id) || OccursAt(url, i, "/" + id)
    ensures ExtractVideoId(url).Some?
  {
    if OccursAt(url, i, "v=" + id) {
      assert url[i .. i + 2 + IdLength][0] == 'v' && url[i .. i + 2 + IdLength][1] == '=';
      assert url[i + 2 .. i + 2 + IdLength] == url[i .. i + 2 + IdLength][2..] == id;
      assert VMatchAt(url, i);
    } else {
      assert url[i .. i + 1 + IdLength][0] == '/';
      assert url[i + 1 .. i + 1 + IdLength] == url[i .. i + 1 + IdLength][1..] == id;
      assert SlashMatchAt(url, i);
    }
    assert MatchAt(url, i);
  }

  /** A match needs at least 12 characters, so empty and short inputs give `None`. */
  lemma ShortInputGivesNone(url: string)
    requires |url| < 1 + IdLength
    ensures ExtractVideoId(url) == None
  {
  }

  /**
   * No end anchor: `/` followed by an identifier and any further class
   * characters yields the identifier, not a failure and not a longer token.
   */
  lemma SlashRunIsNotAnchored(id: string, more: string)
    requires |id| == IdLength && AllIdChars(id) && AllIdChars(more)
    ensures ExtractVideoId("/" + id + more) == Some(id)
  {
    var url := "/" + id + more;
    assert url[1 .. 1 + IdLength] == id;
    assert SlashMatchAt(url, 0);
    ExtractIsLeftmost(url, 0);
  }

  /** The same for the `v=` alternative. */
  lemma VRunIsNotAnchored(id: string, more: string)
    requires |id| == IdLength && AllIdChars(id) && AllIdChars(more)
    ensures ExtractVideoId("v=" + id + more) == Some(id)
  {
    var url := "v=" + id + more;
    assert url[2 .. 2 + IdLength] == id;
    assert VMatchAt(url, 0);
    ExtractIsLeftmost(url, 0);
  }

  /** A short-link URL: the first `/` followed by 11 class characters wins. */
  lemma ShortLinkExample()
    ensures ExtractVideoId("youtu.be/dQw4w9WgXcQ") == Some("dQw4w9WgXcQ")
  {
    var url := "youtu.be/dQw4w9WgXcQ";
    assert url[9 .. 20] == "dQw4w9WgXcQ";
    assert SlashMatchAt(url, 8);
    forall j | 0 <= j < 8 ensures !MatchAt(url, j) {
      assert url[j] != '/' && url[j] != 'v';
    }
    ExtractIsLeftmost(url, 8);
  }

  /** A watch URL: the `/` before `watch` is not followed by 11 class characters, so `v=` wins. */
  lemma WatchUrlExample()
    ensures ExtractVideoId("youtube.com/watch?v=dQw4w9WgXcQ") == Some("dQw4w9WgXcQ")
  {
    var url := "youtube.com/watch?v=dQw4w9WgXcQ";
    assert url[20 .. 31] == "dQw4w9WgXcQ";
    assert VMatchAt(url, 18);
    forall j | 0 <= j < 18 ensures !MatchAt(url, j) {
      if j == 11 {
        assert url[12 .. 23][5] == url[17] == '?';
      } else {
        assert url[j] != '/' && url[j] != 'v';
      }
    }
    ExtractIsLeftmost(url, 18);
  }

  /**
   * The pattern does not look at the host: any path segment of 11 class
   * characters before the query wins over a later `v=`.
   */
  lemma PathSegmentWinsExample()
    ensures ExtractVideoId("a.io/channel_abcd?v=dQw4w9WgXcQ") == Some("channel_abc")
  {
    var url := "a.io/channel_abcd?v=dQw4w9WgXcQ";
    assert url == "a.io/" + "channel_abc" + "d?v=dQw4w9WgXcQ";
    assert url[5 .. 16] == "channel_abc";
    assert SlashMatchAt(url, 4);
    forall j | 0 <= j < 4 ensures !MatchAt(url, j) {
      assert url[j] != '/' && url[j] != 'v';
    }
    ExtractIsLeftmost(url, 4);
  }
}
