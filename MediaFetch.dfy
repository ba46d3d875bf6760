/** The image search of `fetch_images_from_picsum` (ved.py:20-92): the
    request it sends to the stock-media API and how it picks URLs out of the
    response. The HTTP exchange itself is not modelled: the response is an
    input, and so is the permutation `random.sample(hits, len(hits))` draws. */
module MediaFetch {

  type Url = string

  /** One entry of the response's `hits` list; the selection reads only its
      `webformatURL` field. */
  datatype Hit = Hit(webformatURL: Url)

  /** The HTTP response: its status code and, on success, the decoded `hits`. */
  datatype Response = Response(status: int, hits: seq<Hit>)

  /** The query parameters of the image search (the API key is left out). */
  datatype SearchRequest = SearchRequest(
    query: string,
    perPage: int,
    imageType: string,
    minWidth: nat,
    minHeight: nat,
    orientation: string,
    order: string)

  const StatusOk: int := 200
  /** The page size is never asked below this. */
  const MinPerPage: int := 5

  /** The request of ved.py:35-49: the page size is `num_images` floored at 5. */
  function ImageSearch(query: string, numImages: int): (r: SearchRequest)
    ensures r.query == query
    ensures r.perPage >= MinPerPage && r.perPage >= numImages
    ensures r.perPage == numImages || r.perPage == MinPerPage
    ensures r.imageType == "vector" && r.minWidth == 900 && r.minHeight == 1600
    ensures r.orientation == "vertical" && r.order == "latest"
  {
    var perPage := if numImages > MinPerPage then numImages else MinPerPage;
    SearchRequest(query, perPage, "vector", 900, 1600, "vertical", "latest")
  }

  predicate Distinct(q: seq<nat>)
  {
    forall j, k :: 0 <= j < k < |q| ==> q[j] != q[k]
  }

  /** `perm` lists each index below `n` exactly once: the order in which
      `random.sample(hits, len(hits))` returns the hits. */
  predicate IsPermutation(perm: seq<nat>, n: nat)
  {
    |perm| == n && (forall k :: 0 <= k < n ==> perm[k] < n) && Distinct(perm)
  }

  /** The hits in the order of the permutation. */
  function Sampled(hits: seq<Hit>, perm: seq<nat>): (s: seq<Hit>)
    requires IsPermutation(perm, |hits|)
  {
    seq(|perm|, k requires 0 <= k < |perm| => hits[perm[k]])
  }

  /** The URLs of the sampled hits, in sampled order. */
  function SampledUrls(hits: seq<Hit>, perm: seq<nat>): (urls: seq<Url>)
    requires IsPermutation(perm, |hits|)
  {
    var sample := Sampled(hits, perm);
    seq(|sample|, k requires 0 <= k < |sample| => sample[k].webformatURL)
  }

  /** How many hits the loop of ved.py:56-63 takes before its `break`. */
  function Taken(numImages: int, available: nat): (t: nat)
    ensures t <= available && (numImages >= 0 ==> t <= numImages)
    ensures numImages <= 0 ==> t == 0
    ensures t == available || t == numImages || (numImages < 0 && t == 0)
  {
    if numImages <= 0 then 0 else if numImages < available then numImages else available
  }

  /** `fetch_images_from_picsum` with `media_type == 0`: builds the request,
      and from the response keeps the `webformatURL` of the first
      `num_images` sampled hits, or nothing when the status is not 200. */
  method FetchImages(query: string, numImages: int, response: Response, perm: seq<nat>)
    returns (request: SearchRequest, images: seq<Url>)
    requires response.status == StatusOk ==> IsPermutation(perm, |response.hits|)
    ensures request == ImageSearch(query, numImages)
    ensures response.status != StatusOk ==> images == []
    ensures response.status == StatusOk ==>
      |images| == Taken(numImages, |response.hits|) &&
      (forall k :: 0 <= k < |images| ==> images[k] == response.hits[perm[k]].webformatURL) &&
      images == SampledUrls(response.hits, perm)[..|images|]
  {
    request := ImageSearch(query, numImages);
    images := [];
    if response.status == StatusOk {
      var sample := Sampled(response.hits, perm);
      var i := 0;
      while i < |sample|
        invariant 0 <= i <= |sample|
        invariant i == 0 || i <= numImages
        invariant |images| == i
        invariant forall k :: 0 <= k < i ==> images[k] == sample[k].webformatURL
      {
        if numImages > i {
          images := images + [sample[i].webformatURL];
        } else {
          break;
        }
        i := i + 1;
      }
    }
  }

  // ---------------------------------------------------------------------
  // Pigeonhole facts about the sampling permutation

  /** Distinct naturals below `m` are at most `m` in number. */
  lemma {:induction false} DistinctBound(q: seq<nat>, m: nat)
    requires Distinct(q)
    requires forall k :: 0 <= k < |q| ==> q[k] < m
    ensures |q| <= m
    decreases |q|
  {
    if |q| > 0 {
      var x := q[|q| - 1];
      var rest := q[..|q| - 1];
      assert forall k :: 0 <= k < |rest| ==> rest[k] != x by {
        forall k | 0 <= k < |rest| ensures rest[k] != x {
          assert q[k] != q[|q| - 1];
        }
      }
      var squeezed := seq(|rest|, k requires 0 <= k < |rest| => if rest[k] > x then rest[k] - 1 else rest[k]);
      DistinctBound(squeezed, m - 1);
    }
  }

  /** A permutation of the indices below `n` contains every one of them. */
  lemma PermutationCovers(perm: seq<nat>, n: nat, h: nat)
    requires IsPermutation(perm, n)
    requires h < n
    ensures h in perm
  {
    if h !in perm {
      var squeezed := seq(n, k requires 0 <= k < n => if perm[k] > h then perm[k] - 1 else perm[k]);
      assert forall k :: 0 <= k < n ==> perm[k] != h;
      DistinctBound(squeezed, n - 1);
      assert false;
    }
  }

  // ---------------------------------------------------------------------
  // What the selection promises

  /** When the hits carry pairwise different URLs, so do the selected
      images: no hit is taken twice. */
  lemma SelectionDistinct(hits: seq<Hit>, perm: seq<nat>, numImages: int)
    requires IsPermutation(perm, |hits|)
    requires forall j, k :: 0 <= j < k < |hits| ==> hits[j].webformatURL != hits[k].webformatURL
    ensures var images := SampledUrls(hits, perm)[..Taken(numImages, |hits|)];
      forall j, k :: 0 <= j < k < |images| ==> images[j] != images[k]
  {
  }

  /** When at least as many images are asked for as there are hits, every
      hit's URL is returned. */
  lemma FetchTakesEveryHit(hits: seq<Hit>, perm: seq<nat>, numImages: int)
    requires IsPermutation(perm, |hits|)
    requires numImages >= |hits|
    ensures Taken(numImages, |hits|) == |hits|
    ensures forall h :: 0 <= h < |hits| ==>
      hits[h].webformatURL in SampledUrls(hits, perm)[..Taken(numImages, |hits|)]
  {
    var images := SampledUrls(hits, perm)[..Taken(numImages, |hits|)];
    forall h | 0 <= h < |hits| ensures hits[h].webformatURL in images {
      PermutationCovers(perm, |hits|, h);
      var k :| 0 <= k < |perm| && perm[k] == h;
      assert images[k] == hits[h].webformatURL;
    }
  }
}
