/** The deterministic helpers of the HTTP API in `app.py`: the upload
    extension check, the public URL derived from an image path, the
    enrichment of search hits with catalog records and ranks, the text
    search and the category list. The catalog is the metadata loaded at
    start-up, passed in as a parameter. */
module App {
  import opened Common
  import opened Catalog
  import opened Text
  import opened StringOrder
  import CreateMetadata

  // ---------------------------------------------------------------------
  // Upload check

  /** `Config.ALLOWED_EXTENSIONS` */
  const AllowedExtensions: set<string> := {"png", "jpg", "jpeg"}

  /** `allowed_file(filename)`: the text after the last `.`, lower-cased,
      is an allowed extension. */
  function AllowedFile(filename: string): (ok: bool)
    ensures ok ==> '.' in filename
  {
    match LastIndexOf(filename, '.')
    case None => false
    case Some(i) => Lower(filename[i + 1..]) in AllowedExtensions
  }

  /** A file name passes exactly when some `.` in it is followed by an
      allowed extension (in any case) that holds no further `.`. */
  lemma AllowedFileIff(filename: string)
    ensures AllowedFile(filename) <==>
      exists i :: 0 <= i < |filename| && filename[i] == '.'
        && '.' !in filename[i + 1..] && Lower(filename[i + 1..]) in AllowedExtensions
  {
  }

  lemma LowerCharIsDot(c: char)
    ensures LowerChar(c) == '.' <==> c == '.'
  {
  }

  /** The upload check accepts exactly the file names the catalog scan
      takes for images. */
  lemma AllowedFileMatchesImageName(filename: string)
    ensures AllowedFile(filename) <==> CreateMetadata.IsImageName(filename)
  {
    if AllowedFile(filename) {
      AllowedImpliesImageName(filename);
    }
    if CreateMetadata.IsImageName(filename) {
      ImageNameImpliesAllowed(filename);
    }
  }

  lemma AllowedImpliesImageName(filename: string)
    requires AllowedFile(filename)
    ensures CreateMetadata.IsImageName(filename)
  {
    var l := Lower(filename);
    var i := LastIndexOf(filename, '.').value;
    var e := Lower(filename[i + 1..]);
    LowerTail(filename, i);
    assert EndsWith(l, "." + e) by {
      assert |l| - |"." + e| == i;
    }
    DotExtensionIsImageSuffix(l, e);
  }

  lemma DotExtensionIsImageSuffix(l: string, e: string)
    requires e in AllowedExtensions && EndsWith(l, "." + e)
    ensures EndsWith(l, ".jpg") || EndsWith(l, ".jpeg") || EndsWith(l, ".png")
  {
    if e == "jpg" {
      assert "." + e == ".jpg";
    } else if e == "jpeg" {
      assert "." + e == ".jpeg";
    } else {
      assert "." + e == ".png";
    }
  }

  /** Lower-casing a tail that starts at a `.`. */
  lemma LowerTail(s: string, i: nat)
    requires i < |s| && s[i] == '.'
    ensures Lower(s)[i..] == "." + Lower(s[i + 1..])
  {
  }

  lemma ImageNameImpliesAllowed(filename: string)
    requires CreateMetadata.IsImageName(filename)
    ensures AllowedFile(filename)
  {
    var l := Lower(filename);
    assert EndsWith(l, ".jpg") || EndsWith(l, ".jpeg") || EndsWith(l, ".png");
    if EndsWith(l, ".jpeg") {
      assert ".jpeg" == "." + "jpeg";
      AllowedByExtension(filename, "jpeg");
    } else if EndsWith(l, ".jpg") {
      assert ".jpg" == "." + "jpg";
      AllowedByExtension(filename, "jpg");
    } else {
      assert ".png" == "." + "png";
      AllowedByExtension(filename, "png");
    }
  }

  lemma AllowedByExtension(filename: string, ext: string)
    requires ext in AllowedExtensions && '.' !in ext
    requires EndsWith(Lower(filename), "." + ext)
    ensures AllowedFile(filename)
  {
    var i := |filename| - |ext| - 1;
    DotBeforeLoweredExtension(filename, i, ext);
    AllowedFileIff(filename);
  }

  /** When the lower-cased name ends with `.` and a dot-free `ext`, the
      original name has its last `.` at the same place. */
  lemma DotBeforeLoweredExtension(filename: string, i: nat, ext: string)
    requires i < |filename| && |ext| == |filename| - i - 1 && '.' !in ext
    requires Lower(filename)[i..] == "." + ext
    ensures filename[i] == '.' && '.' !in filename[i + 1..] && Lower(filename[i + 1..]) == ext
  {
    var l := Lower(filename);
    var tail := filename[i + 1..];
    assert l[i] == '.';
    LowerCharIsDot(filename[i]);
    forall k | 0 <= k < |tail|
      ensures Lower(tail)[k] == ext[k] && tail[k] != '.'
    {
      assert l[i + 1 + k] == ext[k];
      LowerCharIsDot(filename[i + 1 + k]);
    }
  }

  // ---------------------------------------------------------------------
  // Public image URLs

  const ProductsMarker := "data/products/"
  const ProductsMarkerWindows := "data\\products\\"
  const PreprocessedMarker := "data/preprocessed/"
  const PreprocessedMarkerWindows := "data\\preprocessed\\"
  const ProductsRoute := "/images/products/"
  const PreprocessedRoute := "/images/preprocessed/"

  /** The part of `path` served under a route: what follows the last
      backslash-style marker with backslashes made slashes, unless the
      slash-style marker occurs, in which case what follows its last
      occurrence as it stands. */
  function RelativePath(path: string, marker: string, windowsMarker: string): (r: string)
    requires |marker| > 0 && |windowsMarker| > 0
    ensures Contains(path, marker) ==> EndsWith(path, marker + r) && !Contains(r, marker)
    ensures !Contains(path, marker) ==> '\\' !in r
  {
    var relative := ReplaceChar(LastPiece(path, windowsMarker), '\\', '/');
    if Contains(path, marker) then
      LastPieceIsTail(path, marker);
      LastPiece(path, marker)
    else
      ReplaceCharRemoves(LastPiece(path, windowsMarker), '\\', '/');
      relative
  }

  /** The `image_url` the API assigns to a product with image path `path`,
      or `None` when it keeps the one stored in the catalog. */
  function ImageUrlFor(path: string): (url: Option<string>)
    ensures url.None? <==>
      && !Contains(path, ProductsMarker) && !Contains(path, ProductsMarkerWindows)
      && !Contains(path, PreprocessedMarker) && !Contains(path, PreprocessedMarkerWindows)
    ensures url.Some? ==> ProductsRoute <= url.value || PreprocessedRoute <= url.value
  {
    if Contains(path, ProductsMarkerWindows) || Contains(path, ProductsMarker) then
      Some(ProductsRoute + RelativePath(path, ProductsMarker, ProductsMarkerWindows))
    else if Contains(path, PreprocessedMarkerWindows) || Contains(path, PreprocessedMarker) then
      Some(PreprocessedRoute + RelativePath(path, PreprocessedMarker, PreprocessedMarkerWindows))
    else None
  }

  /** A catalog record with the URL block applied. */
  function WithImageUrl(p: Product): (q: Product)
    ensures q.(imageUrl := p.imageUrl) == p
    ensures ImageUrlFor(p.imagePath).Some? ==> q.imageUrl == ImageUrlFor(p.imagePath).value
    ensures ImageUrlFor(p.imagePath).None? ==> q.imageUrl == p.imageUrl
  {
    match ImageUrlFor(p.imagePath)
    case None => p
    case Some(url) => p.(imageUrl := url)
  }

  /** The relative part, whichever marker style produced it, is what follows
      the last occurrence of a marker in the path, and holds no further
      occurrence of it. With the slash marker it is that tail as it stands;
      with only the backslash marker it is that tail with every backslash
      turned into a slash. */
  lemma RelativePathIsTail(path: string, marker: string, windowsMarker: string)
    requires |marker| > 0 && |windowsMarker| > 0
    requires Contains(path, marker) || Contains(path, windowsMarker)
    ensures var rel := RelativePath(path, marker, windowsMarker);
      && |rel| <= |path|
      && var tail := path[|path| - |rel|..];
      if Contains(path, marker) then
        rel == tail && EndsWith(path, marker + tail) && !Contains(tail, marker)
      else
        && EndsWith(path, windowsMarker + tail) && !Contains(tail, windowsMarker)
        && rel == ReplaceChar(tail, '\\', '/') && '\\' !in rel
  {
    if Contains(path, marker) {
      LastPieceIsTail(path, marker);
    } else {
      LastPieceIsTail(path, windowsMarker);
      ReplaceCharRemoves(LastPiece(path, windowsMarker), '\\', '/');
    }
  }

  /** Which route a path is served under: products when a products marker
      (either style) occurs, even if a preprocessed marker occurs too;
      preprocessed when only a preprocessed marker occurs; none otherwise. */
  lemma ImageUrlRoutes(path: string)
    ensures var url := ImageUrlFor(path);
      && (url.None? <==>
            !Contains(path, ProductsMarker) && !Contains(path, ProductsMarkerWindows)
            && !Contains(path, PreprocessedMarker) && !Contains(path, PreprocessedMarkerWindows))
      && ((Contains(path, ProductsMarker) || Contains(path, ProductsMarkerWindows)) ==>
            url.Some? && ProductsRoute <= url.value
            && url.value[|ProductsRoute|..] == RelativePath(path, ProductsMarker, ProductsMarkerWindows))
      && ((!Contains(path, ProductsMarker) && !Contains(path, ProductsMarkerWindows)
           && (Contains(path, PreprocessedMarker) || Contains(path, PreprocessedMarkerWindows))) ==>
            url.Some? && PreprocessedRoute <= url.value
            && url.value[|PreprocessedRoute|..] == RelativePath(path, PreprocessedMarker, PreprocessedMarkerWindows))
  {
  }

  /** The URL block can be applied twice (the listing endpoints write into
      the shared catalog records) with the same outcome as once. */
  lemma WithImageUrlIdempotent(p: Product)
    ensures WithImageUrl(WithImageUrl(p)) == WithImageUrl(p)
    ensures WithImageUrl(p).imagePath == p.imagePath
  {
  }

  // ---------------------------------------------------------------------
  // Enriching similarity hits

  /** A catalog record returned by the image search, with `similarity` and
      `rank` added. */
  datatype Enriched = Enriched(product: Product, similarity: real, rank: int)

  /** The position of the first catalog product whose image path is `path`
      (the inner `for ... break` loop). */
  function FirstWithPath(catalog: seq<Product>, path: string): (r: Option<nat>)
    ensures r.Some? ==> r.value < |catalog| && catalog[r.value].imagePath == path
    ensures r.Some? ==> forall j :: 0 <= j < r.value ==> catalog[j].imagePath != path
    ensures r.None? <==> forall j :: 0 <= j < |catalog| ==> catalog[j].imagePath != path
  {
    if |catalog| == 0 then None
    else if catalog[0].imagePath == path then Some(0)
    else
      match FirstWithPath(catalog[1..], path)
      case None => None
      case Some(k) => Some(k + 1)
  }

  /** `s.index(x)`: the position of the first element equal to `x`. */
  function IndexOf<T(==)>(s: seq<T>, x: T): (r: nat)
    requires x in s
    ensures r < |s| && s[r] == x
    ensures forall j :: 0 <= j < r ==> s[j] != x
  {
    if s[0] == x then 0 else 1 + IndexOf(s[1..], x)
  }

  /** The positions among the first `n` hits whose key names a catalog
      product, in increasing order. */
  function MatchedHits(catalog: seq<Product>, hits: seq<(string, real)>, n: nat): (rows: seq<nat>)
    requires n <= |hits|
    ensures |rows| <= n
    ensures forall k :: 0 <= k < |rows| ==> rows[k] < n
    ensures forall a, b :: 0 <= a < b < |rows| ==> rows[a] < rows[b]
    ensures forall i :: 0 <= i < n ==> (i in rows <==> FirstWithPath(catalog, hits[i].0).Some?)
  {
    if n == 0 then []
    else
      MatchedHits(catalog, hits, n - 1)
        + (if FirstWithPath(catalog, hits[n - 1].0).Some? then [n - 1] else [])
  }

  /** The enrichment loop over the first `n` hits: hit `i` gets rank
      `ranks[i]` and its product passes through `decorate` (the URL block).
      A hit whose key names no product is skipped. */
  function EnrichFirst(catalog: seq<Product>, hits: seq<(string, real)>, n: nat,
                       ranks: seq<int>, decorate: Product -> Product): seq<Enriched>
    requires n <= |hits| == |ranks|
  {
    if n == 0 then []
    else
      var hit := hits[n - 1];
      EnrichFirst(catalog, hits, n - 1, ranks, decorate)
        + match FirstWithPath(catalog, hit.0)
          case None => []
          case Some(k) => [Enriched(decorate(catalog[k]), hit.1, ranks[n - 1])]
  }

  /** `e` is the record built for hit `i` with rank `rank`. */
  predicate EnrichedFrom(catalog: seq<Product>, hits: seq<(string, real)>, e: Enriched, i: nat,
                         rank: int, decorate: Product -> Product)
    requires i < |hits|
  {
    var first := FirstWithPath(catalog, hits[i].0);
    && first.Some?
    && e == Enriched(decorate(catalog[first.value]), hits[i].1, rank)
  }

  lemma {:induction false} EnrichFirstFollowsMatches(catalog: seq<Product>, hits: seq<(string, real)>,
                                                    n: nat, ranks: seq<int>, decorate: Product -> Product)
    requires n <= |hits| == |ranks|
    ensures var out := EnrichFirst(catalog, hits, n, ranks, decorate);
      var rows := MatchedHits(catalog, hits, n);
      && |out| == |rows|
      && forall k :: 0 <= k < |out| ==> EnrichedFrom(catalog, hits, out[k], rows[k], ranks[rows[k]], decorate)
  {
    if n > 0 {
      EnrichFirstFollowsMatches(catalog, hits, n - 1, ranks, decorate);
      var prev := EnrichFirst(catalog, hits, n - 1, ranks, decorate);
      var prevRows := MatchedHits(catalog, hits, n - 1);
      var out := EnrichFirst(catalog, hits, n, ranks, decorate);
      var rows := MatchedHits(catalog, hits, n);
      var first := FirstWithPath(catalog, hits[n - 1].0);
      if first.Some? {
        var e := Enriched(decorate(catalog[first.value]), hits[n - 1].1, ranks[n - 1]);
        assert out == prev + [e];
        assert rows == prevRows + [n - 1];
        assert EnrichedFrom(catalog, hits, e, n - 1, ranks[n - 1], decorate);
        forall k | 0 <= k < |out|
          ensures EnrichedFrom(catalog, hits, out[k], rows[k], ranks[rows[k]], decorate)
        {
          if k < |prev| {
            assert EnrichedFrom(catalog, hits, prev[k], prevRows[k], ranks[prevRows[k]], decorate);
            assert out[k] == prev[k] && rows[k] == prevRows[k];
          } else {
            assert out[k] == e && rows[k] == n - 1;
          }
        }
      } else {
        assert out == prev;
        assert rows == prevRows;
      }
    }
  }

  /** `similar_results.index(result) + 1` for every hit. */
  function ListIndexRanks(hits: seq<(string, real)>): (ranks: seq<int>)
    ensures |ranks| == |hits|
    ensures forall i :: 0 <= i < |hits| ==> ranks[i] == IndexOf(hits, hits[i]) + 1
  {
    seq(|hits|, i requires 0 <= i < |hits| => IndexOf(hits, hits[i]) + 1)
  }

  /** One plus each hit's own position. */
  function PositionRanks(n: nat): (ranks: seq<int>)
    ensures |ranks| == n
    ensures forall i :: 0 <= i < n ==> ranks[i] == i + 1
  {
    seq(n, i requires 0 <= i < n => i + 1)
  }

  /** The results list of `search_by_image`, as written: the rank of a hit
      is one plus the position of the first hit equal to it. */
  function EnrichResults(catalog: seq<Product>, hits: seq<(string, real)>): (out: seq<Enriched>)
    ensures var rows := MatchedHits(catalog, hits, |hits|);
      && |out| == |rows| <= |hits|
      && forall k :: 0 <= k < |out| ==>
        EnrichedFrom(catalog, hits, out[k], rows[k], ListIndexRanks(hits)[rows[k]], WithImageUrl)
  {
    EnrichFirstFollowsMatches(catalog, hits, |hits|, ListIndexRanks(hits), WithImageUrl);
    EnrichFirst(catalog, hits, |hits|, ListIndexRanks(hits), WithImageUrl)
  }

  /** The results list with the rank the code evidently means: one plus
      the hit's own position. */
  function EnrichResultsByPosition(catalog: seq<Product>, hits: seq<(string, real)>): (out: seq<Enriched>)
    ensures var rows := MatchedHits(catalog, hits, |hits|);
      && |out| == |rows| <= |hits|
      && forall k :: 0 <= k < |out| ==>
        EnrichedFrom(catalog, hits, out[k], rows[k], PositionRanks(|hits|)[rows[k]], WithImageUrl)
  {
    EnrichFirstFollowsMatches(catalog, hits, |hits|, PositionRanks(|hits|), WithImageUrl);
    EnrichFirst(catalog, hits, |hits|, PositionRanks(|hits|), WithImageUrl)
  }

  /** Each result carries the first catalog record stored under its hit's
      key, with that key as its image path; keys no record has are the
      hits left out. */
  lemma EnrichedRecordsMatchKeys(catalog: seq<Product>, hits: seq<(string, real)>)
    ensures var out := EnrichResults(catalog, hits);
      var rows := MatchedHits(catalog, hits, |hits|);
      && (forall k :: 0 <= k < |out| ==>
            && out[k].product.imagePath == hits[rows[k]].0
            && out[k].similarity == hits[rows[k]].1
            && exists j :: (0 <= j < |catalog| && out[k].product == WithImageUrl(catalog[j])
                            && forall i :: 0 <= i < j ==> catalog[i].imagePath != hits[rows[k]].0))
      && (forall i :: 0 <= i < |hits| && i !in rows ==>
            forall p :: p in catalog ==> p.imagePath != hits[i].0)
  {
    var out := EnrichResults(catalog, hits);
    var rows := MatchedHits(catalog, hits, |hits|);
    forall k | 0 <= k < |out|
      ensures out[k].product.imagePath == hits[rows[k]].0
    {
      var j := FirstWithPath(catalog, hits[rows[k]].0).value;
      assert out[k].product == WithImageUrl(catalog[j]);
    }
  }

  /** Position ranks start at 1 or later, strictly increase along the
      results, and never exceed the number of hits. */
  lemma PositionRanksIncrease(catalog: seq<Product>, hits: seq<(string, real)>)
    ensures var out := EnrichResultsByPosition(catalog, hits);
      && (forall k :: 0 <= k < |out| ==> k + 1 <= out[k].rank <= |hits|)
      && (forall a, b :: 0 <= a < b < |out| ==> out[a].rank < out[b].rank)
  {
    var out := EnrichResultsByPosition(catalog, hits);
    var rows := MatchedHits(catalog, hits, |hits|);
    forall k | 0 <= k < |out|
      ensures k + 1 <= out[k].rank
    {
      RowsAtLeastIndex(rows, k);
    }
  }

  lemma {:induction false} RowsAtLeastIndex(rows: seq<nat>, k: nat)
    requires forall a, b :: 0 <= a < b < |rows| ==> rows[a] < rows[b]
    requires k < |rows|
    ensures k <= rows[k]
  {
    if k > 0 {
      RowsAtLeastIndex(rows, k - 1);
    }
  }

  /** When no two hits are equal tuples, the rank the code computes is the
      position rank. */
  lemma DistinctHitsRankByPosition(catalog: seq<Product>, hits: seq<(string, real)>)
    requires Distinct(hits)
    ensures EnrichResults(catalog, hits) == EnrichResultsByPosition(catalog, hits)
  {
    forall i | 0 <= i < |hits|
      ensures ListIndexRanks(hits)[i] == PositionRanks(|hits|)[i]
    {
      var j := IndexOf(hits, hits[i]);
      assert !(j < i) && !(i < j);
    }
    assert ListIndexRanks(hits) == PositionRanks(|hits|);
  }

  /** Two products sharing an image give two rows with the same key and,
      their features being equal, the same score: both results then get
      rank 1. */
  lemma DuplicateHitsShareRank()
    ensures var p := Product(1, "Shoes #1", "shoes", "data/products/shoes/a.jpg",
                             "/products/shoes/a.jpg", "27.99 \U{20AC}", "", true, None);
      var hits := [(p.imagePath, 0.9), (p.imagePath, 0.9)];
      var out := EnrichResults([p], hits);
      |out| == 2 && out[0].rank == 1 && out[1].rank == 1
      && EnrichResultsByPosition([p], hits)[1].rank == 2
  {
    var p := Product(1, "Shoes #1", "shoes", "data/products/shoes/a.jpg",
                     "/products/shoes/a.jpg", "27.99 \U{20AC}", "", true, None);
    var hits := [(p.imagePath, 0.9), (p.imagePath, 0.9)];
    assert FirstWithPath([p], p.imagePath) == Some(0);
    assert IndexOf(hits, hits[1]) == 0;
  }

  // ---------------------------------------------------------------------
  // Text search

  /** `search_by_text` keeps at most this many results. */
  const MaxTextResults := 20

  /** The lower-cased name, category and description, space-separated. */
  function SearchableText(p: Product): string {
    Lower(p.name) + " " + Lower(p.category) + " " + Lower(p.description)
  }

  function TextMatches(catalog: seq<Product>, query: string): seq<Product> {
    Filter(catalog, p => Contains(SearchableText(p), query))
  }

  /** The answer of `search_by_text`: a 400 error, or the normalised query
      and its results. */
  datatype TextSearchReply = MissingQuery | TextResults(query: string, results: seq<Product>)

  /** `search_by_text(raw)`: strip and lower-case the query; refuse an empty
      one; otherwise the first matching catalog records, URL block applied,
      cut to `MaxTextResults`. */
  function SearchByText(catalog: seq<Product>, raw: string): (reply: TextSearchReply)
    ensures reply.MissingQuery? <==> forall i :: 0 <= i < |raw| ==> IsSpace(raw[i])
    ensures reply.TextResults? ==>
      && reply.query == Lower(Strip(raw))
      && |reply.query| > 0 && Contains(Lower(raw), reply.query)
      && var found := MapSeq(TextMatches(catalog, reply.query), WithImageUrl);
      && reply.results <= found
      && |reply.results| == if |found| < MaxTextResults then |found| else MaxTextResults
  {
    var query := Lower(Strip(raw));
    StripEmptyIffBlank(raw);
    if |query| == 0 then MissingQuery
    else
      StripIsContained(raw);
      LowerKeepsContains(raw, Strip(raw));
      TextResults(query, Prefix(MapSeq(TextMatches(catalog, query), WithImageUrl), MaxTextResults))
  }

  lemma LowerKeepsContains(s: string, t: string)
    requires Contains(s, t)
    ensures Contains(Lower(s), Lower(t))
  {
    var i :| 0 <= i <= |s| - |t| && OccursAt(s, t, i);
    assert Lower(s)[i..i + |t|] == Lower(t) by {
      forall k | 0 <= k < |t|
        ensures Lower(s)[i..i + |t|][k] == Lower(t)[k]
      {
        assert s[i + k] == t[k];
      }
    }
    assert OccursAt(Lower(s), Lower(t), i);
  }

  /** Every result is a matching catalog record with the URL block
      applied; the matches keep catalog order; and when fewer than
      `MaxTextResults` come back, no matching record was left out. */
  lemma TextSearchResultsAreMatches(catalog: seq<Product>, raw: string)
    ensures var reply := SearchByText(catalog, raw);
      reply.TextResults? ==>
        && (forall k :: 0 <= k < |reply.results| ==>
              exists p :: (p in catalog && Contains(SearchableText(p), reply.query)
                           && reply.results[k] == WithImageUrl(p)))
        && IsSubsequence(TextMatches(catalog, reply.query), catalog)
        && (|reply.results| < MaxTextResults ==>
              forall p :: p in catalog && Contains(SearchableText(p), reply.query) ==>
                WithImageUrl(p) in reply.results)
  {
    var reply := SearchByText(catalog, raw);
    if reply.TextResults? {
      var query := reply.query;
      FilterIsSubsequence(catalog, p => Contains(SearchableText(p), query));
      assert reply.results == Prefix(MapSeq(TextMatches(catalog, query), WithImageUrl), MaxTextResults);
      ShownMatches(catalog, query, reply.results);
    }
  }

  /** The first `MaxTextResults` matches, URL block applied, are matching
      records; below the cap they include every match. */
  lemma ShownMatches(catalog: seq<Product>, query: string, results: seq<Product>)
    requires results == Prefix(MapSeq(TextMatches(catalog, query), WithImageUrl), MaxTextResults)
    ensures forall k :: 0 <= k < |results| ==>
      exists p :: (p in catalog && Contains(SearchableText(p), query) && results[k] == WithImageUrl(p))
    ensures |results| < MaxTextResults ==>
      forall p :: p in catalog && Contains(SearchableText(p), query) ==> WithImageUrl(p) in results
  {
    var found := TextMatches(catalog, query);
    var shown := MapSeq(found, WithImageUrl);
    forall k | 0 <= k < |results|
      ensures exists p :: (p in catalog && Contains(SearchableText(p), query) && results[k] == WithImageUrl(p))
    {
      assert results[k] == shown[k];
      assert found[k] in found;
    }
    if |results| < MaxTextResults {
      forall p | p in catalog && Contains(SearchableText(p), query)
        ensures WithImageUrl(p) in results
      {
        assert p in found;
        var k :| 0 <= k < |found| && found[k] == p;
        assert results[k] == shown[k];
      }
    }
  }

  // ---------------------------------------------------------------------
  // Categories and the random sample size

  function CategoryOf(p: Product): string {
    p.category
  }

  /** `sorted(set(p['category'] for p in products))` */
  function Categories(catalog: seq<Product>): (r: seq<string>)
    ensures StrictlySorted(r)
    ensures forall c :: c in r <==> exists p :: p in catalog && p.category == c
  {
    var all := MapSeq(catalog, CategoryOf);
    assert forall c :: c in all <==> exists p :: p in catalog && p.category == c by {
      forall c
        ensures c in all <==> exists p :: p in catalog && p.category == c
      {
        if exists p :: p in catalog && p.category == c {
          var p :| p in catalog && p.category == c;
          var k :| 0 <= k < |catalog| && catalog[k] == p;
          assert all[k] == c;
        }
      }
    }
    DropRepeats(SortStrings(all))
  }

  /** The category list is the only sorted, duplicate-free list of the
      catalog's categories. */
  lemma CategoriesAreUnique(catalog: seq<Product>, other: seq<string>)
    requires StrictlySorted(other)
    requires forall c :: c in other <==> exists p :: p in catalog && p.category == c
    ensures other == Categories(catalog)
  {
    StrictlySortedUnique(other, Categories(catalog));
  }

  /** `get_random_products` asks for 20 products by default. */
  const DefaultSampleCount := 20

  /** The sample size `get_random_products` draws: the requested count
      clamped to the catalog size; `random.sample` rejects a negative one. */
  function SampleSize(requested: int, catalogSize: nat): (r: Option<nat>)
    ensures r.None? <==> requested < 0
    ensures r.Some? ==> r.value <= catalogSize && r.value <= requested
    ensures r.Some? ==> r.value == requested || r.value == catalogSize
  {
    var count := if requested < catalogSize then requested else catalogSize;
    if count < 0 then None else Some(count)
  }

  /** Without a `count` argument the home page gets 20 products, or the
      whole catalog when it holds fewer. */
  lemma DefaultSampleFillsHomePage(catalogSize: nat)
    ensures var r := SampleSize(DefaultSampleCount, catalogSize);
      && r.Some?
      && r.value == (if catalogSize < DefaultSampleCount then catalogSize else DefaultSampleCount)
  {
  }
}
