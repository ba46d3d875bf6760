/** `add_background_music` (ved.py:189-219): the background music is made
    quieter, matched in length to the narration, and either mixed under the
    narration or used alone. A track is a sequence of one-millisecond frames,
    so every duration is a whole number of milliseconds, the unit of
    pydub's `len` and slicing (its rounding of sample frames to milliseconds
    is not modelled); the frame type `F`, the -10 dB gain and the mixing of
    two frames are parameters. Decoding and encoding MP3 files are not modelled. */
module AudioMix {

  /** Music kept past the end of the narration when the music is trimmed. */
  const TrimMargin: nat := 5000

  /** What the function ends with: the exported track, or the
      `ZeroDivisionError` that `len(voice) // len(music)` raises for empty
      music. */
  datatype Mixed<F> = Exported(track: seq<F>) | DivisionByZero

  function Min(a: int, b: int): int
  {
    if a <= b then a else b
  }

  /** `music - 10`: a gain applied to every frame. */
  function Attenuate<F>(track: seq<F>, gain: F -> F): (r: seq<F>)
    ensures |r| == |track|
  {
    seq(|track|, i requires 0 <= i < |track| => gain(track[i]))
  }

  /** `track * n`: `n` copies of the track back to back. */
  function Repeat<F>(track: seq<F>, n: nat): (r: seq<F>)
    ensures |r| == n * |track|
  {
    if n == 0 then [] else track + Repeat(track, n - 1)
  }

  /** Lines 207-210: longer music is cut to the narration plus the margin
      (a Python slice, so never past the music's own end); other music is
      repeated `len(voice) // len(music) + 1` times. */
  function Normalised<F>(music: seq<F>, voiceLength: nat): seq<F>
    requires |music| > 0
  {
    if |music| > voiceLength then music[..Min(|music|, voiceLength + TrimMargin)]
    else Repeat(music, voiceLength / |music| + 1)
  }

  /** pydub's `base.overlay(top)`: as long as `base`; wherever `top` has a
      frame it is mixed into the frame of `base`. */
  function Overlay<F>(base: seq<F>, top: seq<F>, mix: (F, F) -> F): seq<F>
  {
    seq(|base|, i requires 0 <= i < |base| => if i < |top| then mix(base[i], top[i]) else base[i])
  }

  /** The track `add_background_music` exports for a narration `voice` and
      a music track `music`. */
  function BackgroundMix<F>(voice: seq<F>, music: seq<F>, combination: bool,
                            gain: F -> F, mix: (F, F) -> F): Mixed<F>
  {
    if |music| == 0 then DivisionByZero
    else
      var background := Normalised(Attenuate(music, gain), |voice|);
      Exported(if combination then Overlay(voice, background, mix) else background)
  }

  /** ved.py:199-219, reassigning `music` step by step as the source does. */
  method AddBackgroundMusic<F>(voice: seq<F>, music: seq<F>, combination: bool,
                               gain: F -> F, mix: (F, F) -> F)
    returns (result: Mixed<F>)
    ensures result == BackgroundMix(voice, music, combination, gain, mix)
    ensures result.DivisionByZero? <==> |music| == 0
    ensures result.Exported? && combination ==> |result.track| == |voice|
    ensures result.Exported? && !combination ==> |result.track| > |voice|
  {
    var background := Attenuate(music, gain);
    if |background| > |voice| {
      background := background[..Min(|background|, |voice| + TrimMargin)];
    } else if |background| == 0 {
      return DivisionByZero;
    } else {
      background := Repeat(background, |voice| / |background| + 1);
    }
    NormalisedLength(Attenuate(music, gain), |voice|);
    if combination {
      result := Exported(Overlay(voice, background, mix));
    } else {
      result := Exported(background);
    }
  }

  // ---------------------------------------------------------------------
  // Repetition

  lemma MulAtLeast(d: int, m: int)
    requires d >= 1 && m > 0
    ensures d * m >= m
  {
  }

  /** Euclidean division has one quotient and one remainder. */
  lemma DivModUnique(a: int, m: int, q: int, r: int)
    requires m > 0 && 0 <= r < m && a == q * m + r
    ensures a / m == q && a % m == r
  {
    var d := q - a / m;
    assert a == (a / m) * m + a % m && 0 <= a % m < m;
    assert d * m == a % m - r by {
      assert q * m - (a / m) * m == d * m;
    }
    if d > 0 {
      MulAtLeast(d, m);
    } else if d < 0 {
      MulAtLeast(-d, m);
    }
  }

  lemma ModShift(i: int, m: int)
    requires m > 0 && i >= m
    ensures (i - m) % m == i % m
  {
    var q, r := (i - m) / m, (i - m) % m;
    assert i - m == q * m + r;
    assert i == (q + 1) * m + r;
    DivModUnique(i, m, q + 1, r);
  }

  /** Frame `i` of the repeated track is frame `i mod len` of the original. */
  lemma {:induction false} RepeatAt<F>(track: seq<F>, n: nat, i: nat)
    requires i < |Repeat(track, n)|
    ensures |track| > 0 && Repeat(track, n)[i] == track[i % |track|]
  {
    var m := |track|;
    assert Repeat(track, n) == track + Repeat(track, n - 1);
    if i >= m {
      RepeatAt(track, n - 1, i - m);
      ModShift(i, m);
    } else {
      DivModUnique(i, m, 0, i);
    }
  }

  // ---------------------------------------------------------------------
  // Length normalisation

  /** The normalised music always outlasts the narration: trimmed music is
      `min(M, L + 5000)` long, repeated music `M * (L // M + 1)`, which is
      at most `L + M`. */
  lemma NormalisedLength<F>(music: seq<F>, voiceLength: nat)
    requires |music| > 0
    ensures var n := |Normalised(music, voiceLength)|;
      n > voiceLength &&
      (|music| > voiceLength ==> n == Min(|music|, voiceLength + TrimMargin)) &&
      (|music| <= voiceLength ==>
         n == |music| * (voiceLength / |music| + 1) && n <= voiceLength + |music|)
  {
  }

  /** The normalised music plays the music in a loop from its start. */
  lemma NormalisedAt<F>(music: seq<F>, voiceLength: nat, i: nat)
    requires |music| > 0
    requires i < |Normalised(music, voiceLength)|
    ensures Normalised(music, voiceLength)[i] == music[i % |music|]
  {
    var m := |music|;
    if m > voiceLength {
      DivModUnique(i, m, 0, i);
    } else {
      RepeatAt(music, voiceLength / m + 1, i);
    }
  }

  // ---------------------------------------------------------------------
  // The exported track

  /** Empty music is the only failure. With `combination`, every millisecond
      of the narration is mixed with the attenuated music looped from its
      start, and the track is as long as the narration; without it, the
      track is that looped music alone, and longer than the narration. */
  lemma BackgroundMixContent<F>(voice: seq<F>, music: seq<F>, combination: bool,
                                gain: F -> F, mix: (F, F) -> F)
    ensures BackgroundMix(voice, music, combination, gain, mix).DivisionByZero? <==> |music| == 0
    ensures BackgroundMix(voice, music, combination, gain, mix).Exported? ==>
      var t := BackgroundMix(voice, music, combination, gain, mix).track;
      (combination ==>
         |t| == |voice| &&
         forall i :: 0 <= i < |t| ==> t[i] == mix(voice[i], gain(music[i % |music|]))) &&
      (!combination ==>
         |t| > |voice| &&
         forall i :: 0 <= i < |t| ==> t[i] == gain(music[i % |music|]))
  {
    if |music| > 0 {
      var quiet := Attenuate(music, gain);
      var background := Normalised(quiet, |voice|);
      NormalisedLength(quiet, |voice|);
      forall i | 0 <= i < |background| ensures background[i] == gain(music[i % |music|]) {
        NormalisedAt(quiet, |voice|, i);
      }
    }
  }

  /** Without `combination` the exported track depends on the narration only
      through its length: the spoken content is dropped. */
  lemma MusicOnlyIgnoresVoice<F>(voice1: seq<F>, voice2: seq<F>, music: seq<F>,
                                 gain: F -> F, mix: (F, F) -> F)
    requires |voice1| == |voice2|
    ensures BackgroundMix(voice1, music, false, gain, mix) == BackgroundMix(voice2, music, false, gain, mix)
  {
  }
}
