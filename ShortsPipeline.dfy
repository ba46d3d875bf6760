/** The main block of ved.py (lines 257-307): the quote text is cut into
    captions, one image is asked for per caption, the narration is mixed
    with the background music (with `combination=False`, as the block calls
    it), the fetched images are shuffled in place, and clip `i` pairs
    caption `i` with image `i`. Clips are abstract records; composing,
    concatenating and encoding video are not modelled. */
module ShortsPipeline {

  import QuoteText
  import MediaFetch
  import AudioMix

  /** Every clip lasts `video_duration=5` seconds (ved.py:283). */
  const ClipSeconds: nat := 5

  /** What `create_video_with_text_and_image` is given for one clip. */
  datatype Clip = Clip(caption: string, imageUrl: MediaFetch.Url, seconds: nat)

  /** How a run ends: the error branch of ved.py:306-307 when no image came
      back, the `ZeroDivisionError` of an empty music track, or the clips and
      the audio track of the final video. */
  datatype Outcome<F> = NoImages | AudioFailed | Video(clips: seq<Clip>, audio: seq<F>)

  // ---------------------------------------------------------------------
  // random.shuffle(images)

  /** `draw(i)` is the index that `random.shuffle` picks for position `i`;
      it never exceeds `i`. */
  ghost predicate ValidDraw(draw: nat -> nat)
  {
    forall i :: draw(i) <= i
  }

  function Swap<T>(s: seq<T>, i: nat, j: nat): (r: seq<T>)
    requires i < |s| && j < |s|
  {
    s[i := s[j]][j := s[i]]
  }

  /** The shuffle of the first `k` positions: position `k - 1` is swapped
      with its draw, then the positions below it are shuffled. */
  function Shuffled<T>(s: seq<T>, draw: nat -> nat, k: nat): (r: seq<T>)
    requires ValidDraw(draw) && k <= |s|
    decreases k
  {
    if k <= 1 then s else Shuffled(Swap(s, k - 1, draw(k - 1)), draw, k - 1)
  }

  /** A swap only reorders. */
  lemma SwapPermutes<T>(s: seq<T>, i: nat, j: nat)
    requires i < |s| && j < |s|
    ensures |Swap(s, i, j)| == |s| && multiset(Swap(s, i, j)) == multiset(s)
  {
    if i != j {
      var u := s[i := s[j]];
      assert multiset(u) == multiset(s) - multiset{s[i]} + multiset{s[j]};
      assert u[j] == s[j];
    } else {
      assert Swap(s, i, j) == s;
    }
  }

  /** Shuffling only reorders: it keeps the length and the multiset. */
  lemma {:induction false} ShuffledPermutes<T>(s: seq<T>, draw: nat -> nat, k: nat)
    requires ValidDraw(draw) && k <= |s|
    ensures |Shuffled(s, draw, k)| == |s|
    ensures multiset(Shuffled(s, draw, k)) == multiset(s)
    decreases k
  {
    if k > 1 {
      var t := Swap(s, k - 1, draw(k - 1));
      SwapPermutes(s, k - 1, draw(k - 1));
      ShuffledPermutes(t, draw, k - 1);
    }
  }

  /** `random.shuffle(images)`: swaps from the last position down to the
      second, each with the position its draw names. */
  method Shuffle<T>(a: array<T>, draw: nat -> nat)
    requires ValidDraw(draw)
    modifies a
    ensures a[..] == Shuffled(old(a[..]), draw, a.Length)
    ensures multiset(a[..]) == multiset(old(a[..]))
  {
    var k := a.Length;
    while k > 1
      invariant 0 <= k <= a.Length
      invariant Shuffled(a[..], draw, k) == Shuffled(old(a[..]), draw, a.Length)
    {
      ghost var before := a[..];
      var j := draw(k - 1);
      var t := a[k - 1];
      a[k - 1] := a[j];
      a[j] := t;
      assert a[..] == Swap(before, k - 1, j);
      k := k - 1;
    }
    ShuffledPermutes(old(a[..]), draw, a.Length);
  }

  // ---------------------------------------------------------------------
  // Clips

  /** The loop of ved.py:280-284: clip `i` takes caption `textList[i]` and
      image `images[i]`. The caller guarantees there are no more images than
      captions, so `textList[i]` never fails. */
  method PairClips(textList: seq<string>, images: seq<MediaFetch.Url>) returns (clips: seq<Clip>)
    requires |images| <= |textList|
    ensures |clips| == |images|
    ensures forall i :: 0 <= i < |clips| ==>
      clips[i].caption == textList[i] && clips[i].imageUrl == images[i] && clips[i].seconds == ClipSeconds
  {
    clips := [];
    for i := 0 to |images|
      invariant |clips| == i
      invariant forall k :: 0 <= k < i ==>
        clips[k].caption == textList[k] && clips[k].imageUrl == images[k] && clips[k].seconds == ClipSeconds
    {
      clips := clips + [Clip(textList[i], images[i], ClipSeconds)];
    }
  }

  function ClipUrls(clips: seq<Clip>): (urls: seq<MediaFetch.Url>)
  {
    seq(|clips|, i requires 0 <= i < |clips| => clips[i].imageUrl)
  }

  /** Length of the concatenated video, in seconds. */
  function TotalSeconds(clips: seq<Clip>): nat
  {
    if clips == [] then 0 else clips[0].seconds + TotalSeconds(clips[1..])
  }

  /** Clips of five seconds each make a video five seconds per clip long. */
  lemma {:induction false} TotalSecondsOfClips(clips: seq<Clip>)
    requires forall i :: 0 <= i < |clips| ==> clips[i].seconds == ClipSeconds
    ensures TotalSeconds(clips) == ClipSeconds * |clips|
  {
    if clips != [] {
      TotalSecondsOfClips(clips[1..]);
    }
  }

  // ---------------------------------------------------------------------
  // The whole run

  /** ved.py:257-307 from the generated text on. The search response, the
      sampling permutation, the shuffle's draws and the two audio tracks are
      inputs; the caption list is `Segments(rawText)`. */
  method Run<F>(rawText: string, query: string, response: MediaFetch.Response,
                samplePerm: seq<nat>, draw: nat -> nat,
                voice: seq<F>, music: seq<F>, gain: F -> F, mix: (F, F) -> F)
    returns (request: MediaFetch.SearchRequest, outcome: Outcome<F>)
    requires response.status == MediaFetch.StatusOk ==>
      MediaFetch.IsPermutation(samplePerm, |response.hits|)
    requires ValidDraw(draw)
    ensures var segments := QuoteText.Segments(rawText);
      request == MediaFetch.ImageSearch(query, |segments|) &&
      request.perPage >= |segments| >= 1
    ensures outcome.NoImages? <==>
      response.status != MediaFetch.StatusOk || |response.hits| == 0
    ensures outcome.AudioFailed? <==>
      response.status == MediaFetch.StatusOk && |response.hits| > 0 && |music| == 0
    ensures outcome.Video? ==>
      var segments := QuoteText.Segments(rawText);
      var fetched := MediaFetch.SampledUrls(response.hits, samplePerm)
                       [..MediaFetch.Taken(|segments|, |response.hits|)];
      |outcome.clips| == |fetched| <= |segments| &&
      (|response.hits| >= |segments| ==> |outcome.clips| == |segments|) &&
      (forall i :: 0 <= i < |outcome.clips| ==>
         outcome.clips[i].caption == segments[i] && outcome.clips[i].seconds == ClipSeconds) &&
      ClipUrls(outcome.clips) == Shuffled(fetched, draw, |fetched|) &&
      multiset(ClipUrls(outcome.clips)) == multiset(fetched) &&
      TotalSeconds(outcome.clips) == ClipSeconds * |outcome.clips| &&
      AudioMix.BackgroundMix(voice, music, false, gain, mix) == AudioMix.Exported(outcome.audio)
  {
    var text := QuoteText.Preprocess(rawText);
    var textList := QuoteText.Split(text, QuoteText.Separator);
    var images;
    request, images := MediaFetch.FetchImages(query, |textList|, response, samplePerm);
    if images == [] {
      return request, NoImages;
    }
    var mixed := AudioMix.AddBackgroundMusic(voice, music, false, gain, mix);
    if mixed.DivisionByZero? {
      return request, AudioFailed;
    }
    var shuffled := new MediaFetch.Url[|images|](i requires 0 <= i < |images| => images[i]);
    assert shuffled[..] == images;
    Shuffle(shuffled, draw);
    var clips := PairClips(textList, shuffled[..]);
    assert ClipUrls(clips) == shuffled[..];
    TotalSecondsOfClips(clips);
    outcome := Video(clips, mixed.track);
  }
}
