/** What the catalog promises, proved about the functions that `GetVideoInfo` is verified
    against: the best-audio choice, the failure condition, the order, uniqueness and origin
    of the video streams, and the stable ordering of the audio streams. */
module CatalogProperties {
  import opened Wrappers
  import opened Ranking
  import opened Formats

  // ---- best audio ----

  /** `fs[k]` is the first audio-only descriptor of maximal bitrate. */
  ghost predicate IsBestAudioAt(fs: seq<Format>, k: int) {
    && 0 <= k < |fs|
    && IsAudioOnly(fs[k])
    && (forall i :: 0 <= i < |fs| && IsAudioOnly(fs[i]) ==> Abr(fs[i]) <= Abr(fs[k]))
    && (forall i :: 0 <= i < k && IsAudioOnly(fs[i]) ==> Abr(fs[i]) < Abr(fs[k]))
  }

  lemma {:induction false} BestAudioIsFirstMaximal(fs: seq<Format>)
    ensures BestAudio(fs).None? <==> forall i :: 0 <= i < |fs| ==> !IsAudioOnly(fs[i])
    ensures BestAudio(fs).Some? ==> exists k :: IsBestAudioAt(fs, k) && BestAudio(fs).value == fs[k]
  {
    if fs != [] {
      var init, f := fs[..|fs| - 1], fs[|fs| - 1];
      BestAudioIsFirstMaximal(init);
      assert forall i :: 0 <= i < |init| ==> init[i] == fs[i];
      var b := BestAudio(init);
      if IsAudioOnly(f) && (b.None? || Abr(f) > Abr(b.value)) {
        if b.Some? {
          var k :| IsBestAudioAt(init, k) && b.value == init[k];
        }
        assert IsBestAudioAt(fs, |fs| - 1);
      } else if b.Some? {
        var k :| IsBestAudioAt(init, k) && b.value == init[k];
        assert IsBestAudioAt(fs, k);
      }
    }
  }

  // ---- failure ----

  /** An extraction error is passed through; otherwise the catalog fails exactly when there
      is no audio-only descriptor while some adaptive descriptor has a positive height. */
  lemma NormalizeFailure(url: string, extracted: Result<Info, string>)
    ensures extracted.Failure? ==> Normalize(url, extracted) == Failure(ExtractionFailed(extracted.error))
    ensures extracted.Success? ==>
              var fs := extracted.value.formats;
              (Normalize(url, extracted).Failure? <==>
                 (forall i :: 0 <= i < |fs| ==> !IsAudioOnly(fs[i]))
                 && exists i :: 0 <= i < |fs| && QualifiesAsVideo(fs[i]) && IsVideoOnly(fs[i]))
    ensures extracted.Success? && Normalize(url, extracted).Failure? ==>
              Normalize(url, extracted).error == MissingBestAudio
  {
    if extracted.Success? {
      var fs := extracted.value.formats;
      BestAudioIsFirstMaximal(fs);
      VideoCandidatesFailure(fs, BestAudio(fs));
    }
  }

  // ---- video streams ----

  /** The qualifying video descriptors whose height is `k`, in order. */
  function VideoFormatsAt(fs: seq<Format>, k: real): seq<Format> {
    if fs == [] then []
    else
      var f := fs[|fs| - 1];
      VideoFormatsAt(fs[..|fs| - 1], k) + (if QualifiesAsVideo(f) && Height(f) as real == k then [f] else [])
  }

  /** `VideoFormatsAt` is empty exactly when no descriptor qualifies at that height, and
      otherwise starts with the earliest one that does. */
  lemma {:induction false} VideoFormatsAtFirst(fs: seq<Format>, k: real)
    ensures VideoFormatsAt(fs, k) == [] <==>
              forall i :: 0 <= i < |fs| ==> !(QualifiesAsVideo(fs[i]) && Height(fs[i]) as real == k)
    ensures VideoFormatsAt(fs, k) != [] ==>
              exists i :: && 0 <= i < |fs| && fs[i] == VideoFormatsAt(fs, k)[0]
                          && QualifiesAsVideo(fs[i]) && Height(fs[i]) as real == k
                          && forall j :: 0 <= j < i ==> !(QualifiesAsVideo(fs[j]) && Height(fs[j]) as real == k)
  {
    if fs != [] {
      var init := fs[..|fs| - 1];
      VideoFormatsAtFirst(init, k);
      assert forall i :: 0 <= i < |init| ==> init[i] == fs[i];
      if VideoFormatsAt(init, k) == [] && VideoFormatsAt(fs, k) != [] {
        assert VideoFormatsAt(fs, k)[0] == fs[|fs| - 1];
      }
    }
  }

  function MakeVideos(fs: seq<Format>, best: Option<Format>): (r: seq<VideoStream>)
    ensures |r| == |fs|
  {
    seq(|fs|, i requires 0 <= i < |fs| => MakeVideo(fs[i], best))
  }

  /** The streams of one height are made, in order, from the descriptors of that height. */
  lemma {:induction false} VideoCandidatesAt(fs: seq<Format>, best: Option<Format>, vs: seq<VideoStream>, k: real)
    requires VideoCandidates(fs, best) == Success(vs)
    ensures FilterKey(vs, HeightKey, k) == MakeVideos(VideoFormatsAt(fs, k), best)
  {
    if fs != [] {
      var init, f := fs[..|fs| - 1], fs[|fs| - 1];
      assert VideoCandidates(init, best).Success?;
      var prev := VideoCandidates(init, best).value;
      VideoCandidatesAt(init, best, prev, k);
      if QualifiesAsVideo(f) {
        var v := MakeVideo(f, best);
        assert vs == prev + [v];
        FilterKeyConcat(prev, [v], HeightKey, k);
        var a := VideoFormatsAt(init, k);
        assert HeightKey(v) == Height(f) as real;
        assert [v][1..] == [];
        assert FilterKey([v], HeightKey, k) == if Height(f) as real == k then [v] else [];
        if Height(f) as real == k {
          assert VideoFormatsAt(fs, k) == a + [f];
          MakeVideosSnoc(a, f, best);
        } else {
          assert VideoFormatsAt(fs, k) == a;
        }
      }
    }
  }

  lemma MakeVideosSnoc(a: seq<Format>, f: Format, best: Option<Format>)
    ensures MakeVideos(a + [f], best) == MakeVideos(a, best) + [MakeVideo(f, best)]
  {
    var l, r := MakeVideos(a + [f], best), MakeVideos(a, best) + [MakeVideo(f, best)];
    forall i | 0 <= i < |l| ensures l[i] == r[i] {
      if i < |a| {
        assert (a + [f])[i] == a[i];
      }
    }
  }

  /** Every candidate stream is made from a qualifying descriptor of the input. */
  lemma {:induction false} VideoCandidatesOrigin(fs: seq<Format>, best: Option<Format>, vs: seq<VideoStream>)
    requires VideoCandidates(fs, best) == Success(vs)
    ensures forall v :: v in vs ==> exists f :: f in fs && QualifiesAsVideo(f) && v == MakeVideo(f, best)
  {
    if fs != [] {
      var init, f := fs[..|fs| - 1], fs[|fs| - 1];
      var prev :| VideoCandidates(init, best) == Success(prev);
      VideoCandidatesOrigin(init, best, prev);
      forall v | v in vs ensures exists g :: g in fs && QualifiesAsVideo(g) && v == MakeVideo(g, best) {
        if v in prev {
          var g :| g in init && QualifiesAsVideo(g) && v == MakeVideo(g, best);
          assert g in fs;
        } else {
          assert v == MakeVideo(f, best);
        }
      }
    }
  }

  lemma {:induction false} HeightsOfFilter(s: seq<VideoStream>, h: int)
    ensures h in HeightsOf(s) <==> FilterKey(s, HeightKey, h as real) != []
  {
    if s != [] {
      var init, last := s[..|s| - 1], s[|s| - 1];
      assert s == init + [last];
      HeightsOfFilter(init, h);
      FilterKeyConcat(init, [last], HeightKey, h as real);
    }
  }

  lemma {:induction false} DedupMembers(s: seq<VideoStream>)
    ensures forall v :: v in DedupByHeight(s) ==> v in s
  {
    if s != [] {
      var init, last := s[..|s| - 1], s[|s| - 1];
      DedupMembers(init);
      assert s == init + [last];
      var kept := DedupByHeight(init);
      assert DedupByHeight(s) == kept || DedupByHeight(s) == kept + [last];
    }
  }

  function FirstOnly<T>(s: seq<T>): (r: seq<T>)
    ensures |r| <= 1
  {
    if s == [] then [] else [s[0]]
  }

  /** De-duplication keeps, for every height, exactly its first stream. */
  lemma {:induction false} DedupFirstPerHeight(s: seq<VideoStream>, k: real)
    ensures FilterKey(DedupByHeight(s), HeightKey, k) == FirstOnly(FilterKey(s, HeightKey, k))
  {
    if s != [] {
      var init, last := s[..|s| - 1], s[|s| - 1];
      assert s == init + [last];
      DedupFirstPerHeight(init, k);
      FilterKeyConcat(init, [last], HeightKey, k);
      HeightsOfFilter(init, last.height);
      if last.height !in HeightsOf(init) {
        FilterKeyConcat(DedupByHeight(init), [last], HeightKey, k);
      }
    }
  }

  ghost predicate StrictlyDescending(s: seq<VideoStream>) {
    forall i, j :: 0 <= i < j < |s| ==> s[i].height > s[j].height
  }

  /** After a descending sort, de-duplication leaves strictly decreasing heights. */
  lemma {:induction false} DedupStrictlyDescending(s: seq<VideoStream>)
    requires SortedDesc(s, HeightKey)
    ensures StrictlyDescending(DedupByHeight(s))
  {
    if s != [] {
      var init, last := s[..|s| - 1], s[|s| - 1];
      assert forall i :: 0 <= i < |init| ==> init[i] == s[i];
      DedupStrictlyDescending(init);
      if last.height !in HeightsOf(init) {
        var d := DedupByHeight(init);
        DedupMembers(init);
        HeightsOfFilter(init, last.height);
        FilterKeyEmpty(init, HeightKey, last.height as real);
        forall v | v in d ensures v.height > last.height {
          var i :| 0 <= i < |init| && init[i] == v;
          assert HeightKey(s[i]) >= HeightKey(s[|s| - 1]);
        }
        StrictlyDescendingSnoc(d, last);
      }
    }
  }

  lemma StrictlyDescendingSnoc(d: seq<VideoStream>, last: VideoStream)
    requires StrictlyDescending(d)
    requires forall v :: v in d ==> v.height > last.height
    ensures StrictlyDescending(d + [last])
  {
    var out := d + [last];
    forall i, j | 0 <= i < j < |out| ensures out[i].height > out[j].height {
      assert out[i] == d[i] && out[i] in d;
      if j < |d| { assert out[j] == d[j]; }
    }
  }

  /** The video list built from the candidates: sorted, then de-duplicated. */
  function VideoList(vs: seq<VideoStream>): seq<VideoStream> {
    DedupByHeight(SortDesc(vs, HeightKey))
  }

  lemma VideoListDescending(vs: seq<VideoStream>)
    ensures StrictlyDescending(VideoList(vs))
  {
    SortDescIsStableSort(vs, HeightKey);
    DedupStrictlyDescending(SortDesc(vs, HeightKey));
  }

  lemma VideoListPerHeight(fs: seq<Format>, best: Option<Format>, vs: seq<VideoStream>, k: real)
    requires VideoCandidates(fs, best) == Success(vs)
    ensures FilterKey(VideoList(vs), HeightKey, k) == MakeVideos(FirstOnly(VideoFormatsAt(fs, k)), best)
  {
    SortDescIsStableSort(vs, HeightKey);
    DedupFirstPerHeight(SortDesc(vs, HeightKey), k);
    VideoCandidatesAt(fs, best, vs, k);
  }

  ghost predicate MadeFromQualifying(v: VideoStream, fs: seq<Format>, best: Option<Format>) {
    && v.height > 0
    && (v.isAdaptive ==> best.Some?)
    && exists f :: && f in fs && QualifiesAsVideo(f) && v == MakeVideo(f, best)
                   && v.isAdaptive == IsVideoOnly(f)
                   && v.filesize == ResolvedSize(f) +
                        (if v.isAdaptive && best.Some? then ResolvedSize(best.value) else 0)
  }

  lemma VideoListOrigin(fs: seq<Format>, best: Option<Format>, vs: seq<VideoStream>)
    requires VideoCandidates(fs, best) == Success(vs)
    ensures forall v :: v in VideoList(vs) ==> MadeFromQualifying(v, fs, best)
  {
    var sorted := SortDesc(vs, HeightKey);
    SortDescIsStableSort(vs, HeightKey);
    VideoCandidatesOrigin(fs, best, vs);
    DedupMembers(sorted);
    VideoCandidatesFailure(fs, best);
    forall v | v in VideoList(vs) ensures MadeFromQualifying(v, fs, best) {
      assert v in multiset(sorted);
      assert v in vs;
      var f :| f in fs && QualifiesAsVideo(f) && v == MakeVideo(f, best);
      MadeFromQualifyingOf(f, fs, best);
    }
  }

  lemma MadeFromQualifyingOf(f: Format, fs: seq<Format>, best: Option<Format>)
    requires f in fs && QualifiesAsVideo(f) && (IsVideoOnly(f) ==> best.Some?)
    ensures MadeFromQualifying(MakeVideo(f, best), fs, best)
  {
  }

  /** The video list of a catalog: strictly decreasing heights; for every height exactly the
      stream made from the earliest qualifying descriptor of that height, and nothing for a
      height no descriptor qualifies at; every stream made from a qualifying descriptor, its
      size that descriptor's own plus, when adaptive, the best audio's. */
  lemma CatalogVideo(url: string, info: Info)
    requires Normalize(url, Success(info)).Success?
    ensures var c := Normalize(url, Success(info)).value;
            && StrictlyDescending(c.video)
            && (forall k :: FilterKey(c.video, HeightKey, k) ==
                  MakeVideos(FirstOnly(VideoFormatsAt(info.formats, k)), BestAudio(info.formats)))
            && (forall v :: v in c.video ==> MadeFromQualifying(v, info.formats, BestAudio(info.formats)))
  {
    var fs := info.formats;
    var best := BestAudio(fs);
    var vs :| VideoCandidates(fs, best) == Success(vs);
    var c := Normalize(url, Success(info)).value;
    assert c.video == VideoList(vs);
    VideoListDescending(vs);
    forall k ensures FilterKey(c.video, HeightKey, k) == MakeVideos(FirstOnly(VideoFormatsAt(fs, k)), best) {
      VideoListPerHeight(fs, best, vs, k);
    }
    VideoListOrigin(fs, best, vs);
  }

  /** One stream per height: two streams of the catalog never share a height. */
  lemma CatalogVideoHeightsUnique(url: string, info: Info, i: int, j: int)
    requires Normalize(url, Success(info)).Success?
    requires 0 <= i < j < |Normalize(url, Success(info)).value.video|
    ensures Normalize(url, Success(info)).value.video[i].height != Normalize(url, Success(info)).value.video[j].height
  {
    CatalogVideo(url, info);
  }

  // ---- audio streams ----

  /** The audio list of a catalog holds exactly the streams of the audio-only descriptors
      with a positive bitrate, duplicates kept, ordered by non-increasing bitrate with ties
      in descriptor order. */
  lemma CatalogAudio(url: string, info: Info)
    requires Normalize(url, Success(info)).Success?
    ensures var c := Normalize(url, Success(info)).value;
            && IsStableSortDesc(c.audio, AudioCandidates(info.formats), AbrKey)
            && multiset(c.audio) == multiset(AudioCandidates(info.formats))
            && (forall a :: a in c.audio ==>
                  (a.abr > 0.0 && exists f :: f in info.formats && QualifiesAsAudio(f) && a == MakeAudio(f)))
  {
    var fs := info.formats;
    var c := Normalize(url, Success(info)).value;
    SortDescIsStableSort(AudioCandidates(fs), AbrKey);
    AudioFormatsOrigin(fs);
    forall a | a in c.audio
      ensures a.abr > 0.0 && exists f :: f in fs && QualifiesAsAudio(f) && a == MakeAudio(f)
    {
      assert a in multiset(AudioCandidates(fs));
      var af := AudioFormats(fs);
      var i :| 0 <= i < |af| && AudioCandidates(fs)[i] == a;
      assert af[i] in af;
    }
  }

  lemma {:induction false} AudioFormatsOrigin(fs: seq<Format>)
    ensures forall f :: f in AudioFormats(fs) ==> f in fs && QualifiesAsAudio(f)
  {
    if fs != [] {
      AudioFormatsOrigin(fs[..|fs| - 1]);
    }
  }
}
