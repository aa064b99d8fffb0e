# E-commerce image search, modelled in Dafny

This project models the data pipeline and query logic of a small
e-commerce image-search back end:

- `create_metadata.py` scans a products directory and builds the catalog.
  Each category is a sub-directory. Each product is one image file, with a
  number, name, price and paths.
- `preprocess_dataset.py` makes a preprocessed copy of every product image
  it can. It counts successes and failures and writes a catalog whose
  paths point at the copies.
- `build_features_database.py` extracts a feature vector for every product
  image it can. It keeps the survivors as parallel lists, a path-keyed
  dictionary and a "valid" catalog, and builds the cosine search engine
  over them.
- `SimilaritySearch.find_similar` ranks the rows of the feature matrix
  against a query and returns the best `top_k` `(image path, score)` pairs.
- The deterministic parts of the HTTP API in `app.py`:
  - the upload extension check;
  - the public image URL derived from a stored path;
  - the enrichment of search hits with catalog records, similarity and rank;
  - the text search;
  - the category list;
  - the clamp on the random-sample size.

Modules follow the program's files:

| file | module | models |
|---|---|---|
| `common.dfy` | `Common` | `Option`, Python slice length, map/filter over sequences, subsequences |
| `text.dfy` | `Text` | the string methods the code uses: `in`, `split(sep)[-1]`, `replace`, `lower`, `capitalize`, `strip`, `rsplit('.', 1)`, `str(int)`, `os.path.join`, `os.path.basename` |
| `order.dfy` | `StringOrder` | code-point order on strings and `sorted` |
| `catalog.dfy` | `Catalog` | a product record and the metadata document |
| `similarity_search.dfy` | `SimilaritySearch` | `find_similar` |
| `build_features_database.dfy` | `BuildFeaturesDatabase` | the extraction loop and its outputs |
| `preprocess_dataset.dfy` | `PreprocessDataset` | the preprocessing loop and its output catalog |
| `create_metadata.dfy` | `CreateMetadata` | the directory scan |
| `app.dfy` | `App` | the API helpers |

The file system, the CNN feature extractor, the image preprocessor and
numpy's sort are not modelled as code. They enter as parameters:

- `imageExists` stands for `os.path.exists`.
- `extract` and `preprocess` return `Some` result or `None`.
- A directory is given by the entries `os.listdir` returns.
- A search is given the per-row scores, together with an `order` that
  `np.argsort` may return for them.

Where the code and its documentation differ, the model follows the code:

- An empty index is not an error for `find_similar`: over zero rows it
  returns an empty list. The builder never saves one, though. When no
  product survives extraction, the matrix is `np.array([])` with one
  dimension. The report's `features_matrix.shape[1]` then raises before
  anything is written. `BuildFeaturesDatabase.BuildFeatureDatabase`
  returns `None` in exactly that case.
- A negative `top_k` is not rejected. It slices as Python does, so `-1`
  drops the last (worst) row. `SliceLen` and `Prefix` model this.
- Tied scores are not broken by row order. `np.argsort` uses an unstable
  sort, and reversing it for cosine reverses the ties too, so any
  score-sorted permutation is accepted (`IsArgsort`).
- The rank of an image-search result comes from `similar_results.index(result) + 1`.
  It is not the result's position (see Findings).
- The image-search endpoint asks for 10 results by default. `find_similar`'s
  own default is 5.
- Vector dimensions are not checked, and no zero-norm error exists.
  Scores are whatever the floating-point computation yields. The model
  takes them as given reals.
- A hit's product is found by a linear scan of the catalog: the first
  record with the hit's image path. There is no path-keyed map.

## Model

| member | source | states |
|---|---|---|
| SimilaritySearch.FindSimilar | backend/utils/similarity_search.py:10-20 | returns `SliceLen(n, top_k)` pairs. Scores never get worse along the list: non-increasing for cosine, non-decreasing for a distance. Pair `j` is the image path and score of the `j`-th row of `order[::-1][:top_k]` (cosine) or `order[:top_k]` (any other metric tag) |
| SimilaritySearch.TopRowsRanked | backend/utils/similarity_search.py:11-18 | the reported rows are distinct, valid row indices. There are as many as the Python slice allows, and they are ordered best first under the metric |
| SimilaritySearch.TopRowsAreBest | backend/utils/similarity_search.py:15-18 | no row left out of the result scores better than any row reported |
| SimilaritySearch.RankedListsEveryRowBestFirst | backend/utils/similarity_search.py:15 | reading the argsort in the metric's direction lists every row exactly once, best first |
| SimilaritySearch.Argsort | backend/utils/similarity_search.py:15 | every score sequence has an argsort, so `find_similar` is defined on every input |
| BuildFeaturesDatabase.ExtractFeatures | backend/build_features_database.py:53-76 | features, paths and valid products are parallel lists. Path `i` is product `i`'s image and feature row `i` is its extracted vector. The valid products are exactly the catalog products whose image exists and extracts, in order. The dictionary's keys are the listed paths, each mapped to its extracted vector |
| BuildFeaturesDatabase.BuildFeatureDatabase | backend/build_features_database.py:53-126 | there is no result (the run aborts at line 84) exactly when no product survives. Otherwise the result holds the extraction loop's lists and dictionary, as above. The valid metadata keeps the categories and counts the valid products. The engine is built over the path list with the cosine metric |
| BuildFeaturesDatabase.SurvivorsAreTheExtractable | backend/build_features_database.py:63-74 | a product is kept iff it is in the catalog, its image exists and its features are extracted |
| BuildFeaturesDatabase.SurvivorsKeepCatalogOrder | backend/build_features_database.py:59-74 | the valid products are the catalog with the failures deleted, so catalog order is kept |
| BuildFeaturesDatabase.DictionaryNoLargerThanLists | backend/build_features_database.py:71-73 | the path-keyed dictionary has no more entries than the path list; paths shared by two products collapse into one key |
| PreprocessDataset.PreprocessAllImages | backend/preprocess_dataset.py:33-91 | success and failure counts add up to the catalog size. The success count is the size of the new product list. That list holds, in catalog order, one relocated copy of each product whose image exists and preprocesses. Categories are copied, and `total_products` counts the new list |
| PreprocessDataset.Relocated | backend/preprocess_dataset.py:51-59 | the new entry differs from its product only in the two path fields. `original_image_path` holds the old path. The new path ends with the old path's base name |
| PreprocessDataset.RelocatedChangesOnlyPaths | backend/preprocess_dataset.py:51-59 | a copy differs from its product only in the two path fields. `original_image_path` is the old path. The new path ends with the old file's base name, and for a relative category it lies under the preprocessed directory |
| PreprocessDataset.PreprocessedAreTheSuccesses | backend/preprocess_dataset.py:44-84 | a product is preprocessed iff it is in the catalog, its image exists and preprocessing succeeds. The preprocessed products keep catalog order |
| CreateMetadata.CreateMetadata | backend/create_metadata.py:17-57 | the products are those built for the image files of the directories, with directories and files both visited in sorted order. Ids run 1, 2, ... in visiting order. The categories are strictly sorted and are exactly the listing's directory names. `total_products` counts the products |
| CreateMetadata.AddFolderImages | backend/create_metadata.py:35-52 | the inner loop appends one product per image file of the folder, in the given order, numbered on from the products already made |
| CreateMetadata.ImageFilesBecomeProducts | backend/create_metadata.py:22-52 | every image file of every listed directory becomes a product, made from that directory and file and numbered by its place in the visiting order |
| CreateMetadata.ProductsComeFromImageFiles | backend/create_metadata.py:22-49 | every product was made, with its id, from an image file found in a directory of the listing, and that directory's name is its category |
| CreateMetadata.VisitsComeFromFolders | backend/create_metadata.py:22-37 | every visited `(folder, file)` pair names a listed directory and an image file inside it |
| CreateMetadata.IsImageName | backend/create_metadata.py:36 | a name the scan takes for an image has a `.` and at least four characters |
| CreateMetadata.MakeProduct | backend/create_metadata.py:40-49 | the entry carries the product number as its id and the folder as its category. It is in stock and has no original path |
| CreateMetadata.Price | backend/create_metadata.py:46 | a price is decimal digits followed by `.99 €` |
| CreateMetadata.ProductName | backend/create_metadata.py:42 | a name is as long as the folder name plus `" #"` and the number's digits, and ends with `" #"` and those digits |
| CreateMetadata.PriceReadsBack | backend/create_metadata.py:46 | a price is decimal digits followed by `.99 €`. Its digits read back as `20 + (id * 7) % 180`, which lies between 20 and 199 |
| CreateMetadata.NameEndsWithNumber | backend/create_metadata.py:42 | a product name ends with `" #"` and digits that read back as the product id |
| CreateMetadata.ImagePathEndsWithFile | backend/create_metadata.py:37-44 | a stored image path holds no backslash and ends with the file's name (with its backslashes turned into slashes) |
| CreateMetadata.SortedListingHasSameFolders | backend/create_metadata.py:22-30 | sorting the listing keeps the same directory names, so the categories are the listing's directories |
| App.AllowedFile | backend/app.py:52-53 | a name without a `.` is refused |
| App.AllowedFileMatchesImageName | backend/app.py:52-53 | the upload check accepts exactly the file names the catalog scan treats as images (create_metadata.py:36) |
| App.AllowedFileIff | backend/app.py:52-53 | a name passes iff it has a `.` whose dot-free tail, lower-cased, is `png`, `jpg` or `jpeg` |
| App.RelativePath | backend/app.py:85-93 | when the slash marker occurs, the relative part follows an occurrence of it at the end of the path and holds no further occurrence. Otherwise the relative part holds no backslash |
| App.RelativePathIsTail | backend/app.py:85-93 | the relative part is what follows the last occurrence of the slash marker, as it stands, when that marker occurs. Otherwise it is what follows the last backslash marker, with every backslash turned into a slash. In both cases the tail holds no further marker |
| App.ImageUrlRoutes | backend/app.py:85-94 | a path containing a products marker (either style) is served under `/images/products/`, even if a preprocessed marker also occurs. A path with only a preprocessed marker is served under `/images/preprocessed/`. A path with neither keeps its stored URL |
| App.ImageUrlFor | backend/app.py:85-94 | a URL is assigned exactly when one of the four markers occurs in the path. It starts with the products route or the preprocessed route |
| App.WithImageUrl | backend/app.py:85-94 | the URL block changes only `image_url`. It sets it to the routed URL when a marker occurs, and leaves the record unchanged when none does |
| App.WithImageUrlIdempotent | backend/app.py:110-122 | applying the URL block again to an already decorated record changes nothing, so repeated calls of the listing endpoints on the shared records agree |
| App.FirstWithPath | backend/app.py:165-169 | the inner lookup finds the first catalog product with the hit's image path, or reports that none has it |
| App.MatchedHits | backend/app.py:163-171 | the hits that produce a result are exactly those whose key names a catalog product, in hit order |
| App.EnrichFirstFollowsMatches | backend/app.py:163-189 | the enrichment loop yields one record per matched hit, in order. Each record is the hit's first matching product, with the URL block applied, the hit's score and the hit's rank |
| App.EnrichResults | backend/app.py:162-189 | the results as written. There are no more results than hits. Result `k` comes from the `k`-th matched hit, and its rank is `similar_results.index(hit) + 1` |
| App.EnrichedRecordsMatchKeys | backend/app.py:163-189 | each result carries its hit's key as image path and its hit's score, and is the first catalog record under that key. Hits left out name no catalog product |
| App.ListIndexRanks | backend/app.py:188 | each rank is one plus the position of the first hit equal to it |
| App.DuplicateHitsShareRank | backend/app.py:188 | two equal hits (two products sharing an image) both get rank 1 as written; by position the second would get rank 2 |
| App.EnrichResultsByPosition | backend/app.py:162-189 | the corrected results: as above, with rank one plus the hit's own position |
| App.PositionRanksIncrease | backend/app.py:188 | corrected ranks are at least the result's position plus one, at most the number of hits, and strictly increasing |
| App.DistinctHitsRankByPosition | backend/app.py:188 | when no two hits are equal, the code's ranks equal the corrected ones |
| App.SearchByText | backend/app.py:228-266 | the reply is the 400 error iff the query is empty or all whitespace. Otherwise the searched query is `raw.strip().lower()`: non-empty, and it occurs in the lower-cased raw query. The results are the first `min(matches, 20)` matching records, with the URL block applied |
| App.TextSearchResultsAreMatches | backend/app.py:237-266 | every result is a catalog record whose searchable text contains the query, URL block applied. Matches keep catalog order. Below the cap of 20, no matching record is missing |
| App.Categories | backend/app.py:284-285 | the category list is strictly sorted and holds exactly the categories of the catalog's products |
| App.CategoriesAreUnique | backend/app.py:284-285 | any strictly sorted list of exactly the catalog's categories is the category list |
| App.SampleSize | backend/app.py:74-77 | a negative count is rejected (as `random.sample` rejects it). Otherwise the sample size is the requested count or the catalog size, whichever is smaller |
| App.DefaultSampleFillsHomePage | backend/app.py:74-75 | without a `count` argument the sample has 20 products, or the whole catalog when it holds fewer |
| Text.Strip | backend/app.py:228 | `strip()` returns the slice of the text with only whitespace outside it, and with non-whitespace ends when it is not empty |
| Text.StripEmptyIffBlank | backend/app.py:228-230 | the stripped query is empty iff every character of the raw query is whitespace |
| Text.LastPieceIsTail | backend/app.py:86-88 | `split(sep)[-1]` is the part after the last occurrence of `sep`, and holds no further occurrence of it |
| StringOrder.SortBy | backend/create_metadata.py:22 | `sorted` by a key returns a permutation of its input that is ordered by the key |

## Left out

- Floating point: cosine similarity and L2 distance are not computed. A search takes one real score per row. NaN scores, float32 rounding and the `float()` conversion of a score are not modelled.
- SimilaritySearch.FindSimilar: the tie order of `np.argsort` is not modelled. Any argsort is accepted, so the contract holds for whichever one numpy picks, but it does not say which.
- File and network I/O: JSON and pickle loading and saving, `np.save`, `os.makedirs`, `cv2.imwrite`, and the progress and console output.
- The choice in `build_features_database.py` between the preprocessed and the original metadata file. The model takes the chosen catalog as input.
- The feature extractor (`FeatureExtractor`) and the image preprocessor (`ImagePreprocessor`). They are oracles returning a value or `None`, and an exception inside the preprocessing `try` block counts as `None`.
- Flask request handling in `search_by_image`: the missing-file and empty-filename 400 replies, `secure_filename`, saving and removing the upload, and the 500 replies. The extraction oracle's `None` leads to the same 500 reply. Only the extension check and the enrichment of the hits are modelled.
- `int(request.args.get(...))` parsing of `count` and `top_k`. The model takes the parsed integer, so a non-numeric value (a 500 reply in the code) is not modelled.
- App.SampleSize: `random.sample` itself is left out; only the count it is asked for is modelled.
- The static image routes. The preprocessed route serving files from the products directory is not part of this model.
- `get_all_products` and `get_random_products` write the URL into the shared catalog records. This mutation is covered only by `App.WithImageUrlIdempotent`, which shows that applying the URL block again gives the same records.
- Unicode case mapping: `lower` and `capitalize` change only the ASCII letters A-Z and a-z; other code points are left unchanged. `strip` uses Python's full whitespace set.
- Paths: `os.path.join` and `os.path.basename` follow POSIX rules. The Windows forms are not modelled.
- App.SearchByText: the function's own contract states the prefix and the count of the results; which records they are is stated in `App.TextSearchResultsAreMatches`.
- The frontend, the configuration module (its constants are written into the model) and the training/evaluation scripts.

## Findings

| source | as written | input that shows it | evidently intended | confidence | as-written member | corrected member |
|---|---|---|---|---|---|---|
| backend/app.py:188 | `rank` is `similar_results.index(result) + 1`, the position of the first equal `(path, score)` tuple | two catalog products with the same image path: both rows have equal features, so the two hits are equal tuples and both results get rank 1 | rank is one plus the hit's own position, so ranks strictly increase along the results | medium, not executed | App.EnrichResults, App.DuplicateHitsShareRank | App.EnrichResultsByPosition, App.PositionRanksIncrease, App.DistinctHitsRankByPosition |
