/** The per-product loop of `preprocess_dataset.py`: every catalog product
    either gets a preprocessed copy of its image, recorded by a new entry
    whose `image_path` points at the copy, or is counted as failed.

    `imageExists` answers `os.path.exists`; `preprocess` stands for the whole
    `try` block (directory creation, `ImagePreprocessor.preprocess_image`,
    the write of the result) and returns `None` both when the preprocessor
    returns `None` and when that block raises. */
module PreprocessDataset {
  import opened Common
  import opened Catalog
  import opened Text

  /** A product whose image exists and whose preprocessing succeeds. */
  predicate Preprocessable<I>(p: Product, imageExists: string -> bool, preprocess: string -> Option<I>) {
    imageExists(p.imagePath) && preprocess(p.imagePath).Some?
  }

  function Preprocessed<I>(products: seq<Product>, imageExists: string -> bool, preprocess: string -> Option<I>): seq<Product> {
    Filter(products, p => Preprocessable(p, imageExists, preprocess))
  }

  /** `product.copy()` with `original_image_path` set to the old path and
      `image_path` set to `join(preprocessed_dir, category, basename(old))`:
      nothing else changes, and the new path keeps the image's file name. */
  function Relocated(p: Product, preprocessedDir: string): (q: Product)
    ensures q.(imagePath := p.imagePath, originalImagePath := p.originalImagePath) == p
    ensures q.originalImagePath == Some(p.imagePath)
    ensures EndsWith(q.imagePath, Basename(p.imagePath))
  {
    p.(originalImagePath := Some(p.imagePath),
       imagePath := Join(Join(preprocessedDir, p.category), Basename(p.imagePath)))
  }

  function Relocator(preprocessedDir: string): Product -> Product {
    p => Relocated(p, preprocessedDir)
  }

  /** The new entries for the products that were preprocessed, in order. */
  function RelocateAll(products: seq<Product>, preprocessedDir: string): seq<Product> {
    MapSeq(products, Relocator(preprocessedDir))
  }

  lemma NextProduct<I>(products: seq<Product>, i: nat, imageExists: string -> bool, preprocess: string -> Option<I>)
    requires i < |products|
    ensures Preprocessed(products[..i + 1], imageExists, preprocess) ==
      Preprocessed(products[..i], imageExists, preprocess)
        + (if Preprocessable(products[i], imageExists, preprocess) then [products[i]] else [])
  {
    assert products[..i + 1] == products[..i] + [products[i]];
    FilterAppend(products[..i], products[i], p => Preprocessable(p, imageExists, preprocess));
  }

  /** The result of one run: both counters and the metadata it writes. */
  datatype PreprocessRun = PreprocessRun(successCount: nat, failedCount: nat, metadata: Metadata)

  method PreprocessAllImages<I>(metadata: Metadata, preprocessedDir: string,
                                imageExists: string -> bool, preprocess: string -> Option<I>)
    returns (run: PreprocessRun)
    ensures run.successCount + run.failedCount == |metadata.products|
    ensures run.successCount == |run.metadata.products|
    ensures run.metadata.products ==
      RelocateAll(Preprocessed(metadata.products, imageExists, preprocess), preprocessedDir)
    ensures run.metadata.categories == metadata.categories
    ensures run.metadata.totalProducts == |run.metadata.products|
  {
    var products := metadata.products;
    var successCount: nat := 0;
    var failedCount: nat := 0;
    var done: seq<Product> := [];
    ghost var kept: seq<Product> := [];
    var i := 0;
    while i < |products|
      invariant 0 <= i <= |products|
      invariant successCount + failedCount == i
      invariant successCount == |done|
      invariant kept == Preprocessed(products[..i], imageExists, preprocess)
      invariant done == RelocateAll(kept, preprocessedDir)
    {
      var product := products[i];
      var path := product.imagePath;
      NextProduct(products, i, imageExists, preprocess);
      if !imageExists(path) {
        failedCount := failedCount + 1;
        i := i + 1;
        continue;
      }
      var image := preprocess(path);
      if image.Some? {
        MapSeqAppend(kept, product, Relocator(preprocessedDir));
        done := done + [Relocated(product, preprocessedDir)];
        kept := kept + [product];
        successCount := successCount + 1;
      } else {
        failedCount := failedCount + 1;
      }
      i := i + 1;
    }
    assert products[..i] == products;
    run := PreprocessRun(successCount, failedCount, Metadata(done, metadata.categories, |done|));
  }

  /** A new entry differs from its product only in the two path fields; the
      new path ends with the image's file name and, for a relative category,
      lies under the preprocessed directory. */
  lemma RelocatedChangesOnlyPaths(p: Product, preprocessedDir: string)
    ensures var q := Relocated(p, preprocessedDir);
      && q.id == p.id && q.name == p.name && q.category == p.category
      && q.imageUrl == p.imageUrl && q.price == p.price
      && q.description == p.description && q.inStock == p.inStock
      && q.originalImagePath == Some(p.imagePath)
      && EndsWith(q.imagePath, Basename(p.imagePath))
      && '/' !in Basename(p.imagePath)
      && ((!(|p.category| > 0 && p.category[0] == '/') && |Basename(p.imagePath)| > 0)
          ==> preprocessedDir <= q.imagePath)
  {
    var dir := Join(preprocessedDir, p.category);
    if !(|p.category| > 0 && p.category[0] == '/') && |Basename(p.imagePath)| > 0 {
      assert Basename(p.imagePath)[0] != '/' by {
        assert Basename(p.imagePath)[0] in Basename(p.imagePath);
      }
      assert preprocessedDir <= dir;
    }
  }

  /** A product is preprocessed exactly when its image exists and the
      preprocessing succeeds; the others are the failures counted. */
  lemma PreprocessedAreTheSuccesses<I>(products: seq<Product>, imageExists: string -> bool,
                                       preprocess: string -> Option<I>, p: Product)
    ensures p in Preprocessed(products, imageExists, preprocess) <==>
      p in products && imageExists(p.imagePath) && preprocess(p.imagePath).Some?
    ensures IsSubsequence(Preprocessed(products, imageExists, preprocess), products)
  {
    FilterIsSubsequence(products, p => Preprocessable(p, imageExists, preprocess));
  }
}
