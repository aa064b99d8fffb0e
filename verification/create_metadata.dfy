/** `create_metadata.py`: scan the products directory, one sub-directory per
    category, and number every image file found, folders and files both
    visited in sorted order.

    The directory is given as the entries `os.listdir` returns for it: a
    name, whether `os.path.isdir` holds for it, and for a directory the
    names `os.listdir` returns inside it. */
module CreateMetadata {
  import opened Common
  import opened Catalog
  import opened Text
  import opened StringOrder

  datatype Entry = Entry(name: string, isDir: bool, files: seq<string>)

  function NameOf(e: Entry): string { e.name }

  /** `name.lower().endswith(('.jpg', '.jpeg', '.png'))`: an image name
      has a `.` and at least three characters after it. */
  function IsImageName(name: string): (b: bool)
    ensures b ==> 4 <= |name| && '.' in name
  {
    ImageSuffixHasDot(name);
    var l := Lower(name);
    EndsWith(l, ".jpg") || EndsWith(l, ".jpeg") || EndsWith(l, ".png")
  }

  lemma ImageSuffixHasDot(name: string)
    ensures var l := Lower(name);
      (EndsWith(l, ".jpg") || EndsWith(l, ".jpeg") || EndsWith(l, ".png")) ==> 4 <= |name| && '.' in name
  {
    var l := Lower(name);
    if EndsWith(l, ".jpeg") {
      assert l[|l| - 5..][0] == '.';
      assert name[|name| - 5] in name;
    } else if EndsWith(l, ".jpg") || EndsWith(l, ".png") {
      assert l[|l| - 4..][0] == '.';
      assert name[|name| - 4] in name;
    }
  }

  /** The integer part of a product's price. Python's `%` with a positive
      divisor never returns a negative value, like Dafny's. */
  function PriceUnits(id: int): int {
    20 + (id * 7) % 180
  }

  const PriceTail := ".99 \U{20AC}"

  /** `f"{20 + (id * 7) % 180}.99 €"`: decimal digits, then `.99 €`. */
  function Price(id: int): (r: string)
    ensures EndsWith(r, PriceTail)
    ensures IsDigits(r[..|r| - |PriceTail|])
  {
    var units := NatToString(PriceUnits(id));
    assert (units + PriceTail)[..|units|] == units;
    units + PriceTail
  }

  /** `f"{folder.capitalize()} #{product_id}"`: as long as the folder name
      plus the number and its `" #"`, which end it. */
  function ProductName(folder: string, id: nat): (r: string)
    ensures |r| == |folder| + 2 + |NatToString(id)|
    ensures EndsWith(r, " #" + NatToString(id))
  {
    var head := Capitalize(folder);
    assert head + " #" + NatToString(id) == head + (" #" + NatToString(id));
    head + " #" + NatToString(id)
  }

  /** The entry written for image `file` of folder `folder`: numbered
      `id`, filed under the folder as its category, in stock, with no
      original path (the scan makes no copies). */
  function MakeProduct(productsDir: string, folder: string, file: string, id: nat): (r: Product)
    ensures r.id == id && r.category == folder && r.inStock && r.originalImagePath.None?
  {
    Product(
      id,
      ProductName(folder, id),
      folder,
      ReplaceChar(Join(Join(productsDir, folder), file), '\\', '/'),
      "/products/" + folder + "/" + file,
      Price(id),
      "Beautiful " + folder + " from our collection",
      true,
      None)
  }

  /** The image files of a folder, in the order the inner loop meets them. */
  function ImageFiles(e: Entry): seq<string> {
    Filter(SortStrings(e.files), IsImageName)
  }

  function InFolder(folder: string, files: seq<string>): (r: seq<(string, string)>)
    ensures |r| == |files|
    ensures forall k :: 0 <= k < |r| ==> r[k] == (folder, files[k])
  {
    seq(|files|, k requires 0 <= k < |files| => (folder, files[k]))
  }

  /** The `(folder, file)` pairs the two loops turn into products, in order. */
  function Visits(entries: seq<Entry>): seq<(string, string)> {
    if |entries| == 0 then []
    else
      var last := entries[|entries| - 1];
      Visits(entries[..|entries| - 1])
        + (if last.isDir then InFolder(last.name, ImageFiles(last)) else [])
  }

  /** Each visited file with its product number, counting from 1. */
  function Numbered(visits: seq<(string, string)>): (r: seq<(string, string, nat)>)
    ensures |r| == |visits|
    ensures forall j :: 0 <= j < |r| ==> r[j] == (visits[j].0, visits[j].1, j + 1)
  {
    seq(|visits|, j requires 0 <= j < |visits| => (visits[j].0, visits[j].1, j + 1))
  }

  function ProductMaker(productsDir: string): ((string, string, nat)) -> Product {
    (v: (string, string, nat)) => MakeProduct(productsDir, v.0, v.1, v.2)
  }

  /** The products created for the visited files, in visiting order. */
  function ProductsFor(productsDir: string, visits: seq<(string, string)>): seq<Product> {
    MapSeq(Numbered(visits), ProductMaker(productsDir))
  }

  lemma ProductsForAppend(productsDir: string, visits: seq<(string, string)>, v: (string, string))
    ensures ProductsFor(productsDir, visits + [v])
      == ProductsFor(productsDir, visits) + [MakeProduct(productsDir, v.0, v.1, |visits| + 1)]
  {
    assert Numbered(visits + [v]) == Numbered(visits) + [(v.0, v.1, |visits| + 1)];
    MapSeqAppend(Numbered(visits), (v.0, v.1, |visits| + 1), ProductMaker(productsDir));
  }

  lemma InFolderAppend(folder: string, files: seq<string>, f: string)
    ensures InFolder(folder, files + [f]) == InFolder(folder, files) + [(folder, f)]
  {
  }

  lemma NextFile(visited: seq<(string, string)>, folder: string, files: seq<string>, f: nat)
    requires f < |files|
    ensures visited + InFolder(folder, Filter(files[..f + 1], IsImageName)) ==
      visited + InFolder(folder, Filter(files[..f], IsImageName))
        + (if IsImageName(files[f]) then [(folder, files[f])] else [])
  {
    assert files[..f + 1] == files[..f] + [files[f]];
    FilterAppend(files[..f], files[f], IsImageName);
    InFolderAppend(folder, Filter(files[..f], IsImageName), files[f]);
  }

  /** The inner loop: number the image files of one folder, in the given
      order, continuing after the products made so far. */
  method AddFolderImages(productsDir: string, ghost visited: seq<(string, string)>,
                         products: seq<Product>, folder: string, files: seq<string>)
    returns (out: seq<Product>)
    requires products == ProductsFor(productsDir, visited)
    ensures out == ProductsFor(productsDir, visited + InFolder(folder, Filter(files, IsImageName)))
  {
    out := products;
    var productId: nat := |products| + 1;
    ghost var visits := visited;
    var f := 0;
    while f < |files|
      invariant 0 <= f <= |files|
      invariant visits == visited + InFolder(folder, Filter(files[..f], IsImageName))
      invariant out == ProductsFor(productsDir, visits)
      invariant productId == |visits| + 1
    {
      var file := files[f];
      NextFile(visited, folder, files, f);
      if IsImageName(file) {
        ProductsForAppend(productsDir, visits, (folder, file));
        out := out + [MakeProduct(productsDir, folder, file, productId)];
        visits := visits + [(folder, file)];
        productId := productId + 1;
      }
      f := f + 1;
    }
    assert files[..f] == files;
  }

  lemma NextFolder(folders: seq<Entry>, i: nat)
    requires i < |folders|
    ensures Visits(folders[..i + 1]) == Visits(folders[..i])
      + (if folders[i].isDir then InFolder(folders[i].name, ImageFiles(folders[i])) else [])
  {
    assert folders[..i + 1][..i] == folders[..i];
  }

  /** The category list after the first `i` sorted entries: strictly
      sorted, holding exactly the directory names seen, none above a name
      still to come. */
  ghost predicate CategoriesSoFar(folders: seq<Entry>, i: nat, categories: seq<string>)
    requires i <= |folders|
  {
    && StrictlySorted(categories)
    && (forall c :: c in categories <==>
          exists k :: 0 <= k < i && folders[k].isDir && folders[k].name == c)
    && (forall j, k :: 0 <= j < |categories| && i <= k < |folders| ==>
          Le(categories[j], folders[k].name))
  }

  lemma NextCategories(folders: seq<Entry>, i: nat, categories: seq<string>)
    requires i < |folders| && SortedBy(folders, NameOf)
    requires CategoriesSoFar(folders, i, categories)
    ensures var name := folders[i].name;
      CategoriesSoFar(folders, i + 1,
        if folders[i].isDir && name !in categories then categories + [name] else categories)
  {
    var name := folders[i].name;
    var next := if folders[i].isDir && name !in categories then categories + [name] else categories;
    if folders[i].isDir && name !in categories {
      forall j | 0 <= j < |categories|
        ensures Lt(categories[j], name)
      {
        assert Le(categories[j], name);
      }
    }
    forall j, k | 0 <= j < |next| && i + 1 <= k < |folders|
      ensures Le(next[j], folders[k].name)
    {
      assert Le(NameOf(folders[i]), NameOf(folders[k]));
      if next[j] != name {
        LeTransitive(next[j], name, folders[k].name);
      } else {
        assert Le(name, folders[k].name);
      }
    }
    forall c
      ensures c in next <==> exists k :: 0 <= k < i + 1 && folders[k].isDir && folders[k].name == c
    {
      if c in next && c !in categories {
        assert folders[i].isDir && folders[i].name == c;
      }
    }
  }

  method CreateMetadata(productsDir: string, listing: seq<Entry>) returns (m: Metadata)
    ensures m.products == ProductsFor(productsDir, Visits(SortBy(listing, NameOf)))
    ensures forall j :: 0 <= j < |m.products| ==> m.products[j].id == j + 1
    ensures StrictlySorted(m.categories)
    ensures forall c :: c in m.categories <==> exists e :: e in listing && e.isDir && e.name == c
    ensures m.totalProducts == |m.products|
  {
    var folders := SortBy(listing, NameOf);
    var products: seq<Product> := [];
    var categories: seq<string> := [];
    var i := 0;
    while i < |folders|
      invariant 0 <= i <= |folders|
      invariant products == ProductsFor(productsDir, Visits(folders[..i]))
      invariant CategoriesSoFar(folders, i, categories)
    {
      var folder := folders[i];
      NextFolder(folders, i);
      NextCategories(folders, i, categories);
      if folder.isDir {
        if folder.name !in categories {
          categories := categories + [folder.name];
        }
        products := AddFolderImages(productsDir, Visits(folders[..i]), products,
                                    folder.name, SortStrings(folder.files));
      }
      i := i + 1;
    }
    assert folders[..i] == folders;
    SortedListingHasSameFolders(listing, folders, categories);
    ProductIds(productsDir, Visits(folders));
    m := Metadata(products, categories, |products|);
  }

  lemma SortedListingHasSameFolders(listing: seq<Entry>, folders: seq<Entry>, categories: seq<string>)
    requires multiset(folders) == multiset(listing)
    requires forall c :: c in categories <==>
      exists k :: 0 <= k < |folders| && folders[k].isDir && folders[k].name == c
    ensures forall c :: c in categories <==> exists e :: e in listing && e.isDir && e.name == c
  {
    forall c
      ensures c in categories <==> exists e :: e in listing && e.isDir && e.name == c
    {
      if c in categories {
        var k :| 0 <= k < |folders| && folders[k].isDir && folders[k].name == c;
        assert folders[k] in multiset(listing);
      }
      if exists e :: e in listing && e.isDir && e.name == c {
        var e :| e in listing && e.isDir && e.name == c;
        assert e in multiset(folders);
        var k :| 0 <= k < |folders| && folders[k] == e;
      }
    }
  }

  /** Products are numbered 1, 2, ... in visiting order. */
  lemma ProductIds(productsDir: string, visits: seq<(string, string)>)
    ensures forall j :: 0 <= j < |ProductsFor(productsDir, visits)| ==>
      ProductsFor(productsDir, visits)[j].id == j + 1
  {
  }

  /** A price's integer part reads back as `20 + (id * 7) % 180`, which lies
      between 20 and 199, and the price ends in `.99 €`. */
  lemma PriceReadsBack(id: int)
    ensures var price := Price(id);
      var units := price[..|price| - |PriceTail|];
      && 20 <= PriceUnits(id) < 200
      && EndsWith(price, PriceTail)
      && IsDigits(units) && '.' !in units && ParseDigits(units) == PriceUnits(id)
  {
    var price := Price(id);
    assert price[..|price| - |PriceTail|] == NatToString(PriceUnits(id));
    ParseNatToString(PriceUnits(id));
  }

  /** A product's name ends with its number, after `" #"`. */
  lemma NameEndsWithNumber(folder: string, id: nat)
    ensures var name := ProductName(folder, id);
      var number := name[|name| - |NatToString(id)|..];
      && EndsWith(name, " #" + number)
      && IsDigits(number) && ParseDigits(number) == id
  {
    var head := Capitalize(folder);
    var digits := NatToString(id);
    var name := head + " #" + digits;
    assert name[|name| - |digits|..] == digits;
    assert name[|name| - |" #" + digits|..] == " #" + digits;
    ParseNatToString(id);
  }

  /** A product's image path uses forward slashes only and ends with the
      file's name (its backslashes turned into slashes too). */
  lemma ImagePathEndsWithFile(productsDir: string, folder: string, file: string, id: nat)
    ensures var path := MakeProduct(productsDir, folder, file, id).imagePath;
      && '\\' !in path
      && EndsWith(path, ReplaceChar(file, '\\', '/'))
  {
    var joined := Join(Join(productsDir, folder), file);
    var path := ReplaceChar(joined, '\\', '/');
    ReplaceCharRemoves(joined, '\\', '/');
    var k := |joined| - |file|;
    assert joined[k..] == file;
    forall i | 0 <= i < |file|
      ensures path[k + i] == ReplaceChar(file, '\\', '/')[i]
    {
      assert joined[k + i] == file[i];
    }
    assert path[k..] == ReplaceChar(file, '\\', '/');
  }

  /** Every visited pair is an image file of a directory of the listing. */
  lemma {:induction false} VisitsComeFromFolders(entries: seq<Entry>)
    ensures forall v :: v in Visits(entries) ==>
      exists e :: e in entries && e.isDir && e.name == v.0 && v.1 in e.files && IsImageName(v.1)
  {
    if |entries| > 0 {
      var init := entries[..|entries| - 1];
      var last := entries[|entries| - 1];
      VisitsComeFromFolders(init);
      forall v | v in Visits(entries)
        ensures exists e :: e in entries && e.isDir && e.name == v.0 && v.1 in e.files && IsImageName(v.1)
      {
        if v in Visits(init) {
          var e :| e in init && e.isDir && e.name == v.0 && v.1 in e.files && IsImageName(v.1);
          assert e in entries;
        } else {
          var k :| 0 <= k < |InFolder(last.name, ImageFiles(last))| && InFolder(last.name, ImageFiles(last))[k] == v;
          assert ImageFiles(last)[k] in ImageFiles(last);
          assert last in entries;
        }
      }
    }
  }

  /** Every created product belongs to a listed category directory and was
      made from an image file found in it. */
  lemma ProductsComeFromImageFiles(productsDir: string, listing: seq<Entry>, j: nat)
    requires j < |ProductsFor(productsDir, Visits(SortBy(listing, NameOf)))|
    ensures var p := ProductsFor(productsDir, Visits(SortBy(listing, NameOf)))[j];
      exists e, file :: e in listing && e.isDir && e.name == p.category && file in e.files
        && IsImageName(file) && p == MakeProduct(productsDir, e.name, file, j + 1)
  {
    var folders := SortBy(listing, NameOf);
    var visits := Visits(folders);
    var v := visits[j];
    VisitsComeFromFolders(folders);
    assert v in visits;
    var e :| e in folders && e.isDir && e.name == v.0 && v.1 in e.files && IsImageName(v.1);
    assert e in multiset(listing);
    var p := ProductsFor(productsDir, visits)[j];
    assert p == MakeProduct(productsDir, v.0, v.1, j + 1);
  }

  /** A listed directory's image files are all visited. */
  lemma {:induction false} VisitsCoverFolders(entries: seq<Entry>, e: Entry, f: string)
    requires e in entries && e.isDir && f in ImageFiles(e)
    ensures (e.name, f) in Visits(entries)
  {
    var init := entries[..|entries| - 1];
    var last := entries[|entries| - 1];
    assert entries == init + [last];
    if e == last {
      var k :| 0 <= k < |ImageFiles(e)| && ImageFiles(e)[k] == f;
      assert InFolder(e.name, ImageFiles(e))[k] == (e.name, f);
    } else {
      assert e in init;
      VisitsCoverFolders(init, e, f);
    }
  }

  /** Every image file of every listed directory becomes a product, numbered
      by its place in the visiting order, with the directory as category. */
  lemma ImageFilesBecomeProducts(productsDir: string, listing: seq<Entry>, e: Entry, f: string)
    requires e in listing && e.isDir && f in e.files && IsImageName(f)
    ensures var products := ProductsFor(productsDir, Visits(SortBy(listing, NameOf)));
      exists j :: 0 <= j < |products| && products[j] == MakeProduct(productsDir, e.name, f, j + 1)
  {
    var visits := Visits(SortBy(listing, NameOf));
    ImageFileIsVisited(listing, e, f);
    var j :| 0 <= j < |visits| && visits[j] == (e.name, f);
    ProductAt(productsDir, visits, j);
    var products := ProductsFor(productsDir, visits);
    assert 0 <= j < |products| && products[j] == MakeProduct(productsDir, e.name, f, j + 1);
  }

  lemma ImageFileIsVisited(listing: seq<Entry>, e: Entry, f: string)
    requires e in listing && e.isDir && f in e.files && IsImageName(f)
    ensures (e.name, f) in Visits(SortBy(listing, NameOf))
  {
    var folders := SortBy(listing, NameOf);
    assert e in multiset(folders);
    assert f in SortStrings(e.files);
    VisitsCoverFolders(folders, e, f);
  }

  lemma ProductAt(productsDir: string, visits: seq<(string, string)>, j: nat)
    requires j < |visits|
    ensures |ProductsFor(productsDir, visits)| == |visits|
    ensures ProductsFor(productsDir, visits)[j] == MakeProduct(productsDir, visits[j].0, visits[j].1, j + 1)
  {
    var numbered := Numbered(visits);
    assert numbered[j] == (visits[j].0, visits[j].1, j + 1);
    assert ProductsFor(productsDir, visits)[j] == ProductMaker(productsDir)(numbered[j]);
  }
}
