/** Extraction of the 11-character video id from a URL (`extract_video_id`).
    `re.search` tries every start position from left to right; at each position the
    first pattern `(?:v=|/)([0-9A-Za-z_-]{11})` is tried, and only when it matches
    nowhere is the second pattern `youtu\.be/([0-9A-Za-z_-]{11})` searched. */
module VideoId {
  import opened Wrappers

  const IdLength: nat := 11

  predicate IsIdChar(c: char) {
    ('0' <= c <= '9') || ('A' <= c <= 'Z') || ('a' <= c <= 'z') || c == '_' || c == '-'
  }

  predicate AllIdChars(s: string) {
    forall k :: 0 <= k < |s| ==> IsIdChar(s[k])
  }

  /** Where the capture group of the first pattern starts when that pattern matches at `i`:
      after `v=`, or after `/`. */
  function PrimaryCaptureStart(s: string, i: int): Option<nat> {
    if 0 <= i && i + 2 + IdLength <= |s| && s[i] == 'v' && s[i + 1] == '='
       && AllIdChars(s[i + 2..i + 2 + IdLength])
    then Some(i + 2)
    else if 0 <= i && i + 1 + IdLength <= |s| && s[i] == '/' && AllIdChars(s[i + 1..i + 1 + IdLength])
    then Some(i + 1)
    else None
  }

  predicate PrimaryMatchAt(s: string, i: int) {
    PrimaryCaptureStart(s, i).Some?
  }

  /** The 11 characters captured by the first pattern at `i`. */
  function PrimaryCapture(s: string, i: int): (id: string)
    requires PrimaryMatchAt(s, i)
    ensures |id| == IdLength && AllIdChars(id)
  {
    var c := PrimaryCaptureStart(s, i).value;
    s[c..c + IdLength]
  }

  const ShortHost: string := "youtu.be/"

  predicate SecondaryMatchAt(s: string, i: int) {
    0 <= i && i + |ShortHost| + IdLength <= |s| && s[i..i + |ShortHost|] == ShortHost
    && AllIdChars(s[i + |ShortHost|..i + |ShortHost| + IdLength])
  }

  /** Leftmost position at or after `i` where the first pattern matches. */
  function FirstPrimaryMatch(s: string, i: nat): (r: Option<nat>)
    decreases |s| - i
    ensures r.Some? ==> i <= r.value && PrimaryMatchAt(s, r.value)
    ensures r.Some? ==> forall j :: i <= j < r.value ==> !PrimaryMatchAt(s, j)
    ensures r.None? ==> forall j :: i <= j ==> !PrimaryMatchAt(s, j)
  {
    if i >= |s| then None
    else if PrimaryMatchAt(s, i) then Some(i)
    else FirstPrimaryMatch(s, i + 1)
  }

  /** Leftmost position at or after `i` where the second pattern matches. */
  function FirstSecondaryMatch(s: string, i: nat): (r: Option<nat>)
    decreases |s| - i
    ensures r.Some? ==> i <= r.value && SecondaryMatchAt(s, r.value)
    ensures r.Some? ==> forall j :: i <= j < r.value ==> !SecondaryMatchAt(s, j)
    ensures r.None? ==> forall j :: i <= j ==> !SecondaryMatchAt(s, j)
  {
    if i >= |s| then None
    else if SecondaryMatchAt(s, i) then Some(i)
    else FirstSecondaryMatch(s, i + 1)
  }

  /** `extract_video_id(url)`: the first pattern's capture at its leftmost match, else the
      second pattern's, else None. */
  function ExtractVideoId(url: string): (r: Option<string>)
    ensures r.Some? ==> |r.value| == IdLength && AllIdChars(r.value)
  {
    match FirstPrimaryMatch(url, 0)
    case Some(i) => Some(PrimaryCapture(url, i))
    case None =>
      match FirstSecondaryMatch(url, 0)
      case Some(i) => Some(url[i + |ShortHost|..i + |ShortHost| + IdLength])
      case None => None
  }

  /** Every `youtu.be/<id>` match contains a `/<id>` match of the first pattern, eight
      characters further on, with the same capture. */
  lemma SecondaryImpliesPrimary(s: string, i: int)
    requires SecondaryMatchAt(s, i)
    ensures PrimaryMatchAt(s, i + 8)
    ensures PrimaryCapture(s, i + 8) == s[i + |ShortHost|..i + |ShortHost| + IdLength]
  {
    assert s[i..i + |ShortHost|][8] == s[i + 8];
    assert s[i + 8] == '/';
    assert s[i + 8] != 'v';
  }

  /** The result is decided by the first pattern alone: None exactly when it matches
      nowhere, otherwise its capture at the leftmost position where it matches. So the
      `youtu.be` pattern never changes the result. */
  lemma {:induction false} ExtractVideoIdIsLeftmostPrimary(url: string)
    ensures ExtractVideoId(url).None? <==> forall i :: !PrimaryMatchAt(url, i)
    ensures forall i :: PrimaryMatchAt(url, i) && (forall j :: 0 <= j < i ==> !PrimaryMatchAt(url, j))
                        ==> ExtractVideoId(url) == Some(PrimaryCapture(url, i))
  {
    var p := FirstPrimaryMatch(url, 0);
    if p.None? {
      var q := FirstSecondaryMatch(url, 0);
      if q.Some? {
        SecondaryImpliesPrimary(url, q.value);
        assert false;
      }
      forall i ensures !PrimaryMatchAt(url, i) {
        if i >= 0 {
          assert !PrimaryMatchAt(url, i);
        }
      }
    } else {
      forall i | PrimaryMatchAt(url, i) && (forall j :: 0 <= j < i ==> !PrimaryMatchAt(url, j))
        ensures ExtractVideoId(url) == Some(PrimaryCapture(url, i))
      {
        assert i == p.value;
      }
    }
  }

  /** The short link `youtu.be/dQw4w9WgXcQ` yields its id. */
  lemma ShortLinkExample()
    ensures ExtractVideoId("youtu.be/dQw4w9WgXcQ") == Some("dQw4w9WgXcQ")
  {
    var url := "youtu.be/dQw4w9WgXcQ";
    var id := "dQw4w9WgXcQ";
    assert url[9..20] == id;
    assert AllIdChars(id) by {
      forall k | 0 <= k < |id| ensures IsIdChar(id[k]) {
      }
    }
    assert PrimaryMatchAt(url, 8);
    assert PrimaryCapture(url, 8) == "dQw4w9WgXcQ";
    forall j | 0 <= j < 8 ensures !PrimaryMatchAt(url, j) {
      assert url[j] != '/' && url[j] != 'v';
    }
    ExtractVideoIdIsLeftmostPrimary(url);
  }

  /** A string without any `/` and without any `v=` yields no id. */
  lemma NoMarkerNoId(url: string)
    requires forall k :: 0 <= k < |url| ==> url[k] != '/'
    requires forall k :: 0 <= k < |url| - 1 ==> !(url[k] == 'v' && url[k + 1] == '=')
    ensures ExtractVideoId(url) == None
  {
    forall i ensures !PrimaryMatchAt(url, i) {
    }
    ExtractVideoIdIsLeftmostPrimary(url);
  }

  /** `not-a-url` is such a string. */
  lemma MalformedExample()
    ensures ExtractVideoId("not-a-url") == None
  {
    NoMarkerNoId("not-a-url");
  }
}
