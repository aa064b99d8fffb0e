/** The extraction loop of `build_features_database.py`: walk the catalog in
    order, skip a product whose image file is missing or whose features the
    extractor cannot compute, and collect the survivors into parallel lists,
    a path-keyed dictionary and the "valid" metadata.

    The file system and the feature extractor are oracles: `imageExists`
    answers `os.path.exists`, and `extract` returns the feature vector (of
    any type `V`) or `None`, as `FeatureExtractor.extract_features` does. */
module BuildFeaturesDatabase {
  import opened Common
  import opened Catalog
  import SimilaritySearch

  /** A product is kept when its image exists and extraction succeeds. */
  predicate Extractable<V>(p: Product, imageExists: string -> bool, extract: string -> Option<V>) {
    imageExists(p.imagePath) && extract(p.imagePath).Some?
  }

  /** The products the loop keeps, in catalog order. */
  function Survivors<V>(products: seq<Product>, imageExists: string -> bool, extract: string -> Option<V>): seq<Product> {
    Filter(products, p => Extractable(p, imageExists, extract))
  }

  /** What one build produces: the `features_dict`, the rows of the
      feature matrix, the parallel path list, the valid metadata and the
      search engine over it. */
  datatype FeatureDatabase<V> = FeatureDatabase(
    byPath: map<string, V>,
    features: seq<V>,
    imagePaths: seq<string>,
    validMetadata: Metadata,
    engine: SimilaritySearch.SearchEngine)

  lemma NextSurvivor<V>(products: seq<Product>, i: nat, imageExists: string -> bool, extract: string -> Option<V>)
    requires i < |products|
    ensures Survivors(products[..i + 1], imageExists, extract) ==
      Survivors(products[..i], imageExists, extract)
        + (if Extractable(products[i], imageExists, extract) then [products[i]] else [])
  {
    assert products[..i + 1] == products[..i] + [products[i]];
    FilterAppend(products[..i], products[i], p => Extractable(p, imageExists, extract));
  }

  /** The extraction loop: the dictionary and the three parallel lists of
      the products that survive, in catalog order. */
  method ExtractFeatures<V>(products: seq<Product>, imageExists: string -> bool, extract: string -> Option<V>)
    returns (byPath: map<string, V>, features: seq<V>, imagePaths: seq<string>, valid: seq<Product>)
    ensures |features| == |imagePaths| == |valid|
    ensures forall j :: 0 <= j < |imagePaths| ==>
      imagePaths[j] == valid[j].imagePath && extract(imagePaths[j]) == Some(features[j])
    ensures valid == Survivors(products, imageExists, extract)
    ensures forall k :: k in byPath <==> k in imagePaths
    ensures forall k :: k in byPath ==> extract(k) == Some(byPath[k])
  {
    byPath := map[];
    features := [];
    imagePaths := [];
    valid := [];
    var i := 0;
    while i < |products|
      invariant 0 <= i <= |products|
      invariant |features| == |imagePaths| == |valid|
      invariant valid == Survivors(products[..i], imageExists, extract)
      invariant forall j :: 0 <= j < |imagePaths| ==>
        imagePaths[j] == valid[j].imagePath && extract(imagePaths[j]) == Some(features[j])
      invariant forall k :: k in byPath <==> k in imagePaths
      invariant forall k :: k in byPath ==> extract(k) == Some(byPath[k])
    {
      var product := products[i];
      var path := product.imagePath;
      NextSurvivor(products, i, imageExists, extract);
      if !imageExists(path) {
        i := i + 1;
        continue;
      }
      var extracted := extract(path);
      if extracted.Some? {
        byPath := byPath[path := extracted.value];
        features := features + [extracted.value];
        imagePaths := imagePaths + [path];
        valid := valid + [product];
      }
      i := i + 1;
    }
    assert products[..i] == products;
  }

  /** One build, or `None` when no product survives: the feature matrix is
      then `np.array([])`, one-dimensional, and reading its second
      dimension for the report raises before anything is saved. */
  method BuildFeatureDatabase<V>(metadata: Metadata, imageExists: string -> bool, extract: string -> Option<V>)
    returns (result: Option<FeatureDatabase<V>>)
    ensures result.None? <==> |Survivors(metadata.products, imageExists, extract)| == 0
    ensures result.Some? ==> var db := result.value;
      && |db.features| == |db.imagePaths| == |db.validMetadata.products|
      && (forall i :: 0 <= i < |db.imagePaths| ==>
            && db.imagePaths[i] == db.validMetadata.products[i].imagePath
            && extract(db.imagePaths[i]) == Some(db.features[i]))
      && db.validMetadata.products == Survivors(metadata.products, imageExists, extract)
      && (forall k :: k in db.byPath <==> k in db.imagePaths)
      && (forall k :: k in db.byPath ==> extract(k) == Some(db.byPath[k]))
      && db.validMetadata.categories == metadata.categories
      && db.validMetadata.totalProducts == |db.validMetadata.products|
      && db.engine == SimilaritySearch.SearchEngine(db.imagePaths, SimilaritySearch.CosineTag)
  {
    var byPath, features, imagePaths, valid := ExtractFeatures(metadata.products, imageExists, extract);
    if |features| == 0 {
      return None;
    }
    var validMetadata := Metadata(valid, metadata.categories, |valid|);
    result := Some(FeatureDatabase(byPath, features, imagePaths, validMetadata,
                                   SimilaritySearch.SearchEngine(imagePaths, SimilaritySearch.CosineTag)));
  }

  /** A product is in the valid list exactly when it is in the catalog and
      both its image and its features were available. */
  lemma SurvivorsAreTheExtractable<V>(products: seq<Product>, imageExists: string -> bool, extract: string -> Option<V>, p: Product)
    ensures p in Survivors(products, imageExists, extract) <==>
      p in products && imageExists(p.imagePath) && extract(p.imagePath).Some?
  {
  }

  /** The valid list keeps the catalog's order: deleting the failed
      products from the catalog gives it. */
  lemma SurvivorsKeepCatalogOrder<V>(products: seq<Product>, imageExists: string -> bool, extract: string -> Option<V>)
    ensures IsSubsequence(Survivors(products, imageExists, extract), products)
  {
    FilterIsSubsequence(products, p => Extractable(p, imageExists, extract));
  }

  /** The dictionary has one entry per distinct path, so a path that occurs
      twice in the lists (two products sharing an image) occupies one key. */
  lemma DictionaryNoLargerThanLists<V>(byPath: map<string, V>, imagePaths: seq<string>)
    requires forall k :: k in byPath <==> k in imagePaths
    ensures |byPath| <= |imagePaths|
  {
    SetOfSeqBound(imagePaths);
    assert byPath.Keys == set k | k in imagePaths;
  }

  lemma {:induction false} SetOfSeqBound(s: seq<string>)
    ensures |set k | k in s| <= |s|
  {
    if |s| > 0 {
      var init := s[..|s| - 1];
      SetOfSeqBound(init);
      assert s == init + [s[|s| - 1]];
      assert (set k | k in s) == (set k | k in init) + {s[|s| - 1]};
    }
  }
}
