# AI Shorts Generator: the decision rules of `ved.py`

`ved.py` turns a generated motivational quote into a short vertical video.
Almost all of its work is calls to outside services and libraries (the
language model, the Pixabay search API, text-to-speech, pydub, PIL,
moviepy). This project models the few rules the script decides itself and
proves what they promise. Every random choice and every service reply is an
input to the model.

- `MediaFetch` (MediaFetch.dfy) covers `fetch_images_from_picsum`. It models
  the search request, with the page size floored at 5. The HTTP response is
  an input `(status, hits)`, and `random.sample(hits, len(hits))` is an input
  permutation of the hit indices. The method `FetchImages` runs the selection
  loop with its early `break`. It keeps the `webformatURL` of the first
  `num_images` sampled hits, or returns nothing when the status is not 200.
- `QuoteText` (QuoteText.dfy) covers the text preparation of the main block.
  It models `replace('-', '-\n')`, then `replace('–', '-\n')`, then
  `split(';')`, using Python's `str` meaning of each call.
- `AudioMix` (AudioMix.dfy) covers `add_background_music`. A track is
  modelled as a sequence of one-millisecond frames, so every duration is a
  whole number of milliseconds. The -10 dB gain and the mixing of two
  frames are parameters. The method reassigns `music` step by step, as the
  source does: it trims the music to `L + 5000` ms or repeats it
  `L // M + 1` times. An empty music track is a `ZeroDivisionError` in the
  source and an error value here. `combination` picks between the overlay
  and the music alone.
- `ShortsPipeline` (ShortsPipeline.dfy) covers the main block from the
  generated text onward:
  - it asks for one image per caption and takes the error branch when no
    image comes back;
  - it mixes the audio with `combination=False`;
  - it shuffles the fetched URLs in place in an array, as `random.shuffle`
    does: position `i` is swapped with a drawn index at or below `i`, from
    the last position down to the second;
  - it pairs clip `i` with caption `i` and image `i`, each clip lasting 5
    seconds.

Three behaviours of the code that are easy to misread:

- The music is repeated `L // M + 1` times, not `ceil(L / M)` times. This is
  one more repetition when `M` divides `L`, including when `M == L`.
- When fewer images come back than there are captions, the script makes
  fewer clips, and the captions past the last image are dropped. Nothing is
  padded to the caption count.
- An empty music track makes `len(voice) // len(music)` raise, so a run can
  also end with that error (`Outcome.AudioFailed`).

## Model

| member | source | states |
|---|---|---|
| `MediaFetch.ImageSearch` | ved.py:35-49 | the search keeps the query, and its page size is `max(num_images, 5)`: never below 5, never below `num_images`, and equal to one of the two; the filters are fixed to vector images of at least 900×1600, vertical, latest first |
| `MediaFetch.Taken` | ved.py:56-63 | the selection loop stops after `min(num_images, len(hits))` hits, or none when `num_images <= 0` |
| `MediaFetch.FetchImages` | ved.py:32-65 | the request is `ImageSearch(query, num_images)`; a non-200 status gives `[]`; on 200 the result has `min(num_images, len(hits))` URLs, URL `k` is the `webformatURL` of sampled hit `k`, and the result is a prefix of the sampled hits' URLs |
| `MediaFetch.SelectionDistinct` | ved.py:56-61 | the sample takes no hit twice, so hits with different URLs give pairwise different image URLs |
| `MediaFetch.FetchTakesEveryHit` | ved.py:56-61 | when `num_images >= len(hits)`, every hit's URL is in the result (pigeonhole over the sampling permutation) |
| `QuoteText.Split` | ved.py:260 | `split(';')` gives one more part than there are separators, so at least one part, even for empty text |
| `QuoteText.PreprocessCons` | ved.py:258-259 | the two replacements act character by character: a hyphen or en-dash becomes `-\n`, every other character stays |
| `QuoteText.PreprocessBreaksHyphens` | ved.py:258-259 | after preprocessing no en-dash is left, and every hyphen is immediately followed by a line break |
| `QuoteText.UnbreakPreprocess` | ved.py:258-259 | round trip: deleting the line break after each hyphen gives back the raw text, with each en-dash turned into a hyphen |
| `QuoteText.PreprocessIdentity` | ved.py:258-259 | text without hyphens or en-dashes passes through unchanged |
| `QuoteText.PreprocessCounts` | ved.py:258-259 | preprocessing adds one character per hyphen and per en-dash and leaves the number of `;` unchanged |
| `QuoteText.SplitPartsFree` | ved.py:260 | no part of the split contains `;` |
| `QuoteText.JoinSplit` | ved.py:260 | joining the parts with `;` rebuilds the split text |
| `QuoteText.SplitJoin` | ved.py:260 | splitting a `;`-join of `;`-free parts gives those parts back |
| `QuoteText.SegmentsProperties` | ved.py:258-260 | there are `count(';') + 1` captions in the raw text, none holding `;`, and they rejoin to the preprocessed text |
| `AudioMix.Attenuate` | ved.py:204 | the -10 dB gain changes frames, never the length |
| `AudioMix.Repeat` | ved.py:210 | `music * n` is `n` times as long as the music |
| `AudioMix.RepeatAt` | ved.py:210 | frame `i` of the repeated music is frame `i mod M` of the music |
| `AudioMix.NormalisedLength` | ved.py:207-210 | if `M > L`, the normalised music is `min(M, L + 5000)` long; otherwise it is `M * (L // M + 1)` long and at most `L + M`; in both cases it is longer than the voice |
| `AudioMix.NormalisedAt` | ved.py:207-210 | the normalised music plays the music in a loop from its start |
| `AudioMix.AddBackgroundMusic` | ved.py:199-219 | the method fails exactly when the music is empty; with `combination` the export is as long as the voice, and without it the export is longer than the voice |
| `AudioMix.BackgroundMixContent` | ved.py:204-216 | with `combination`, millisecond `i` of the export mixes voice frame `i` with the attenuated music frame `i mod M`; without it, the export is the attenuated, looped music alone |
| `AudioMix.MusicOnlyIgnoresVoice` | ved.py:213-216 | with `combination=False` the export does not depend on what the voice says, only on its length |
| `ShortsPipeline.ShuffledPermutes` | ved.py:277 | the shuffle keeps the length and the multiset of the list |
| `ShortsPipeline.Shuffle` | ved.py:277 | the in-place shuffle leaves the array equal to `Shuffled` of its old contents, with the same multiset of URLs |
| `ShortsPipeline.PairClips` | ved.py:280-284 | one clip per image; clip `i` has caption `textList[i]`, image `images[i]` and lasts 5 seconds |
| `ShortsPipeline.TotalSecondsOfClips` | ved.py:283-287 | the concatenated video lasts 5 seconds per clip |
| `ShortsPipeline.Run` | ved.py:257-307 | `num_images` is the caption count (at least 1). An empty fetch, and only that, takes the error branch. Otherwise the clips number `min(captions, hits)`, never more than the captions, so `textList[i]` is always in range. Clip `i` carries caption `i`. The clip URLs are the shuffled fetch, with the same multiset. The audio is the music-only mix |

## Left out

- The HTTP requests to Pixabay and the image downloads (ved.py:51, ved.py:110). These are network I/O. Only the response `(status, hits)` is an input, and the API key is not part of the modelled request.
- The "Failed to fetch images." and "Error: Could not fetch the images." messages, and the success message. These are console output. The model returns `[]` and the `NoImages` outcome instead.
- The video-search branch (ved.py:67-90). It is dead code, because `media_type` is fixed to 0 at ved.py:34.
- Image resizing and blending with PIL, and all moviepy clip construction, concatenation and `write_videofile` (ved.py:111-150, ved.py:163-169, ved.py:287). These are foreign libraries with floating-point pixel work. A clip is the record `(caption, url, seconds)`.
- gTTS speech synthesis and pydub MP3 decoding and export (ved.py:185-186, ved.py:200-201, ved.py:219). The voice and the music are inputs given as frame sequences. The -10 dB gain and pydub's sample mixing are the parameters `gain` and `mix`.
- `wrap_text` (ved.py:172-174). It is a wrapper over the standard library's `textwrap.wrap`, whose algorithm is not part of this model.
- `pyGPT.py` (the language-model session and the markdown stripping). The generated text is the input `rawText` of `ShortsPipeline.Run`.
- The random choices of language, font, theme and music file (ved.py:225-235, ved.py:267-268), and the fixed `gpt` toggle. The model takes the chosen values as inputs. Those choices, the font path given to each clip, and the prompt text are not modelled.
- Loading the environment variables and writing the JSON metadata file (ved.py:15-18, ved.py:295-304). These are I/O.
- `random.sample` and `random.shuffle` themselves: their outputs are inputs. For `random.sample` the input is a permutation of the hit indices. For `random.shuffle` it is a draw function with `draw(i) <= i`, the index its swap loop picks for position `i`. How likely each outcome is, is not modelled.
- AudioMix: every track is a whole number of milliseconds. pydub's `len` rounds `1000 * frames / frame_rate` to the nearest millisecond, and `music * n` repeats raw sample frames, so `len(music * n)` can differ from `n * len(music)` by the rounding. That sub-millisecond rounding is not modelled. With it, the repeated music at ved.py:210 can come out a little shorter than the voice, which `AudioMix.NormalisedLength` rules out for whole-millisecond tracks.
