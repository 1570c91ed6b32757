/** The top-level async function of index.js (lines 88-148): open the catalog, visit every
    product link in turn, extract the product into its own directory, and close the browser
    at the end whatever happened. The browser, the network and the file system are inputs: a
    product visit says whether its page could be opened, what the page holds, whether the
    directory could be created and whether the page could be closed. What the run does is
    a trace of the effects it has. */
module ProductRun {
  import opened Outcomes
  import opened Strings
  import opened PosixPath
  import opened ProductExtract

  /** Why a step threw, by where it arises. */
  datatype Failure =
    | Scrape(error: ScrapeError)     // a TypeError inside one of the page evaluations
    | NoElement(selector: string)    // `$eval` found no element (lines 108, 119)
    | MkdirFailed(directory: string) // createDirectory rethrew (lines 6-12)
    | Undeclared(name: string)       // ReferenceError while building the CSV text (line 130)
    | NavigationFailed(link: string) // the product page could not be opened (lines 103-104)
    | CloseFailed(link: string)      // productPage.close() threw (line 141)
    | CatalogFailed                  // the catalog could not be loaded or listed (lines 96-100)

  /** The effects of a run, in the order they happen. */
  datatype Event =
    | DirectoryCreated(path: string)              // line 124
    | ImageSaved(path: string)                    // line 77
    | CsvWritten(path: string)                    // line 134
    | ProductFailed(link: string, failure: Failure) // the inner catch, line 138
    | PageClosed(link: string)                    // line 141
    | RunFailed(failure: Failure)                 // the outer catch, line 144
    | BrowserClosed                               // the finally block, line 146

  const ProductNameSelector: string := ".c-f48"
  const HighlightsSelector: string := ".c-f18"

  /** What the product page's selectors find. */
  datatype ProductPage = ProductPage(
    name: Option<string>,            // `.c-f48` textContent, if the element exists
    con: seq<string>,                // `.con` textContents (specifications and notes)
    tables: seq<TableElement>,       // `.sp-wrap table`
    addons: seq<AddonElement>,       // `.dLWjTj`
    highlights: Option<string>,      // `.c-f18` innerText, if the element exists
    images: seq<ImageElement>)       // `.r-bg`

  /** One product link as the run meets it. */
  datatype ProductVisit = ProductVisit(
    link: string,
    reached: bool,                   // newPage and goto succeeded (lines 103-104)
    page: ProductPage,
    mkdirOk: bool,                   // fs.mkdir succeeded (line 8)
    closed: bool)                    // productPage.close() succeeded (line 141)

  /** The catalog: unreachable (goto, waitForSelector or the link listing threw), or the
      visits of its `.pro-item a` links in document order. */
  datatype Catalog = Unreachable | Listed(visits: seq<ProductVisit>)

  /** What a block did before it ended, and what it threw, if anything. */
  datatype Outcome = Outcome(events: seq<Event>, failure: Option<Failure>)

  // ---------------------------------------------------------------------------
  // Line 130: the CSV text names `productModel`, whose declaration is commented out

  /** The identifiers the template literal of line 130 evaluates, left to right. */
  const CsvReferences: seq<string> := [
    "productName", "productModel", "productSpecifications", "JSON", "tableData",
    "JSON", "addonsData", "imagePaths", "highlights", "contentNotes"]

  /** The bindings visible at line 130: the module's own declarations, CommonJS's wrapper
      arguments, the globals the script uses, and the locals of the enclosing blocks. */
  const ScopeAtCsv: set<string> := {
    "puppeteer", "fs", "path", "createDirectory", "scrapeContentNotes", "scrapeTable",
    "scrapeAddons", "scrapeImages",
    "require", "module", "exports", "__filename", "__dirname",
    "JSON", "console", "encodeURI",
    "browser", "page", "catalogPageUrl", "productLinks", "productLink", "productPage",
    "productName", "productSpecifications", "tableData", "addonsData", "highlights",
    "contentNotes", "productDirectory", "imagePaths", "csvData", "csvFilePath"}

  /** The first reference that resolves to no binding: the ReferenceError evaluation hits. */
  function FirstUndeclared(refs: seq<string>, scope: set<string>): Option<string> {
    if refs == [] then None
    else if refs[0] !in scope then Some(refs[0])
    else FirstUndeclared(refs[1..], scope)
  }

  /** What is reported is an unbound reference after only bound ones, and nothing is
      reported when every reference is bound. */
  lemma {:induction false} FirstUndeclaredSpec(refs: seq<string>, scope: set<string>)
    ensures var r := FirstUndeclared(refs, scope);
            r.Some? ==> exists i :: 0 <= i < |refs| && refs[i] == r.value && r.value !in scope &&
                          forall j :: 0 <= j < i ==> refs[j] in scope
    ensures FirstUndeclared(refs, scope).None? <==> forall j :: 0 <= j < |refs| ==> refs[j] in scope
    decreases |refs|
  {
    if refs != [] && refs[0] in scope {
      var r := FirstUndeclared(refs, scope);
      FirstUndeclaredSpec(refs[1..], scope);
      if r.Some? {
        var i :| 0 <= i < |refs| - 1 && refs[1..][i] == r.value && r.value !in scope &&
                 forall j :: 0 <= j < i ==> refs[1..][j] in scope;
        assert refs[i + 1] == r.value;
        forall j | 0 < j < i + 1 ensures refs[j] in scope {
          assert refs[j] == refs[1..][j - 1];
        }
      }
      forall j | 0 < j < |refs| ensures refs[j] == refs[1..][j - 1] { }
    }
  }

  /** The reference the CSV text fails on, if any. */
  const CsvUnbound: Option<string> := FirstUndeclared(CsvReferences, ScopeAtCsv)

  /** Building the CSV text always throws a ReferenceError for `productModel`. */
  lemma CsvTemplateFails()
    ensures CsvUnbound == Some("productModel")
  {
    var refs := CsvReferences;
    assert refs[0] == "productName" && refs[0] in ScopeAtCsv;
    assert refs[1..][0] == "productModel" && "productModel" !in ScopeAtCsv;
  }

  // ---------------------------------------------------------------------------
  // The inner try block of one product (lines 106-136)

  /** The directory all products go under, relative to the script's own directory. */
  const BrandDirectory: string := "./YEALINK"

  /** `path.join(__dirname, './YEALINK', productName)`. */
  function ProductDirectory(dirname: string, name: string): string {
    PathJoin([dirname, BrandDirectory, name])
  }

  /** Products with different plain names get different directories; products with the
      same name share one, and the later overwrites the earlier's images. */
  lemma ProductDirectoryInjective(dirname: string, a: string, b: string)
    requires Plain(a) && Plain(b) && a != b
    ensures ProductDirectory(dirname, a) != ProductDirectory(dirname, b)
  {
    assert [dirname, BrandDirectory, a] == [dirname, BrandDirectory] + [a];
    assert [dirname, BrandDirectory, b] == [dirname, BrandDirectory] + [b];
    JoinArgsFileNameInjective([dirname, BrandDirectory], a, b);
  }

  function Saves(paths: seq<string>): (r: seq<Event>)
    ensures |r| == |paths| && forall k :: 0 <= k < |paths| ==> r[k] == ImageSaved(paths[k])
  {
    seq(|paths|, k requires 0 <= k < |paths| => ImageSaved(paths[k]))
  }

  /** The name under which the CSV file would be written (line 133). */
  const CsvFileName: string := "product_data.csv"

  /** Lines 108-121: the stages that only read the page. They give the trimmed product
      name, or the first failure among a missing name, a table or add-on evaluation that
      throws, and a missing highlights element. The specifications and notes read `.con`
      and cannot fail. */
  function Prepare(p: ProductPage): Result<string, Failure> {
    if p.name.None? then Err(NoElement(ProductNameSelector))
    else
      match TablesData(p.tables)
      case Err(e) => Err(Scrape(e))
      case Ok(_) =>
        match AddonsData(p.addons)
        case Err(e) => Err(Scrape(e))
        case Ok(_) =>
          if p.highlights.None? then Err(NoElement(HighlightsSelector))
          else Ok(Trim(p.name.value))
  }

  /** Lines 123-134: the stages that write into the product's directory: create it, save
      the images, build the CSV text and write it. */
  function Store(dir: string, images: seq<ImageElement>, mkdirOk: bool): Outcome {
    if !mkdirOk then Outcome([], Some(MkdirFailed(dir)))
    else
      match ImagePaths(dir, images)
      case Err(e) => Outcome([DirectoryCreated(dir)], Some(Scrape(e)))
      case Ok(paths) =>
        var done := [DirectoryCreated(dir)] + Saves(paths);
        match CsvUnbound
        case Some(x) => Outcome(done, Some(Undeclared(x)))
        case None => Outcome(done + [CsvWritten(PathJoin([dir, CsvFileName]))], None)
  }

  /** The inner block: the reading stages, then the writing stages in the directory named
      after the product. Each stage that throws ends the block with what happened before. */
  function Block(dirname: string, p: ProductPage, mkdirOk: bool): Outcome {
    match Prepare(p)
    case Err(f) => Outcome([], Some(f))
    case Ok(name) => Store(ProductDirectory(dirname, name), p.images, mkdirOk)
  }

  /** The writing stages always throw, after creating the directory and saving the images
      when they get that far; so the CSV file is never written. */
  lemma StoreAlwaysThrows(dir: string, images: seq<ImageElement>, mkdirOk: bool)
    ensures var o := Store(dir, images, mkdirOk);
            && o.failure.Some?
            && (mkdirOk && ImagePaths(dir, images).Ok? ==>
                  o == Outcome([DirectoryCreated(dir)] + Saves(ImagePaths(dir, images).value), Some(Undeclared("productModel"))))
  {
    CsvTemplateFails();
  }

  /** Whatever the writing stages did happened in the product's directory: the directory
      comes first, and the `k`-th other effect saves the `image_<n>.png` file of the `k`-th
      image whose fetch and write succeeded. */
  lemma StoreEffectsInDirectory(dir: string, images: seq<ImageElement>, mkdirOk: bool)
    ensures var o := Store(dir, images, mkdirOk);
            o.events != [] ==>
              && mkdirOk
              && o.events[0] == DirectoryCreated(dir)
              && |o.events| <= |SavedIndices(images)| + 1
              && forall k :: 0 < k < |o.events| ==>
                   o.events[k] == ImageSaved(ImagePath(dir, SavedIndices(images)[k - 1]))
  {
    StoreAlwaysThrows(dir, images, mkdirOk);
    if mkdirOk && ImagePaths(dir, images).Ok? {
      ImagePathsSpec(dir, images, ImagePaths(dir, images).value);
    }
  }

  /** The inner block always throws: a failure while reading the page leaves no effect, and
      a page read in full fails on `productModel` after its directory and images. */
  lemma BlockAlwaysThrows(dirname: string, p: ProductPage, mkdirOk: bool)
    ensures Block(dirname, p, mkdirOk).failure.Some?
    ensures Prepare(p).Err? ==> Block(dirname, p, mkdirOk) == Outcome([], Some(Prepare(p).error))
    ensures Prepare(p).Ok? ==>
              Block(dirname, p, mkdirOk) == Store(ProductDirectory(dirname, Prepare(p).value), p.images, mkdirOk)
  {
    if Prepare(p).Ok? {
      StoreAlwaysThrows(ProductDirectory(dirname, Prepare(p).value), p.images, mkdirOk);
    }
  }

  /** No effect of the inner block is a CSV write or the browser's closing. */
  lemma BlockEvents(dirname: string, p: ProductPage, mkdirOk: bool)
    ensures forall k :: 0 <= k < |Block(dirname, p, mkdirOk).events| ==>
              Block(dirname, p, mkdirOk).events[k].DirectoryCreated? || Block(dirname, p, mkdirOk).events[k].ImageSaved?
  {
    if Prepare(p).Ok? {
      StoreEffectsInDirectory(ProductDirectory(dirname, Prepare(p).value), p.images, mkdirOk);
    }
  }

  /** The inner try block as the script runs it: the awaits in order, each failure caught
      and reported. */
  method ProcessProduct(dirname: string, p: ProductPage, mkdirOk: bool) returns (events: seq<Event>, thrown: Option<Failure>)
    ensures Outcome(events, thrown) == Block(dirname, p, mkdirOk)
  {
    if p.name.None? {
      return [], Some(NoElement(ProductNameSelector));
    }
    var productName := Trim(p.name.value);
    var productSpecifications := MapTrim(p.con);
    var tableData := ScrapeTable(p.tables);
    if tableData.Err? {
      return [], Some(Scrape(tableData.error));
    }
    var addonsData := ScrapeAddons(p.addons);
    if addonsData.Err? {
      return [], Some(Scrape(addonsData.error));
    }
    if p.highlights.None? {
      return [], Some(NoElement(HighlightsSelector));
    }
    var highlights := Trim(p.highlights.value);
    var contentNotes := ContentNotes(p.con);
    var productDirectory := ProductDirectory(dirname, productName);
    if !mkdirOk {
      return [], Some(MkdirFailed(productDirectory));
    }
    events := [DirectoryCreated(productDirectory)];
    var imagePaths := ScrapeImages(productDirectory, p.images);
    if imagePaths.Err? {
      return events, Some(Scrape(imagePaths.error));
    }
    events := events + Saves(imagePaths.value);
    // Evaluating the CSV text resolves `productModel` and throws before any file is written.
    CsvTemplateFails();
    thrown := Some(Undeclared(CsvUnbound.value));
  }

  // ---------------------------------------------------------------------------
  // The product loop (lines 102-142) and the whole run (lines 88-148)

  /** One product: open it, run the inner block, report its failure, close the page. A
      failure to open or to close the page is not caught here; it is the visit's failure. */
  function Visit(dirname: string, v: ProductVisit): Outcome {
    if !v.reached then Outcome([], Some(NavigationFailed(v.link)))
    else Report(v.link, Block(dirname, v.page, v.mkdirOk), v.closed)
  }

  /** After the inner block: its failure, if any, is reported, then the page is closed. */
  function Report(link: string, b: Outcome, closed: bool): Outcome {
    var reported := b.events + (if b.failure.Some? then [ProductFailed(link, b.failure.value)] else []);
    if !closed then Outcome(reported, Some(CloseFailed(link)))
    else Outcome(reported + [PageClosed(link)], None)
  }

  function Visits(dirname: string, vs: seq<ProductVisit>): (r: seq<Outcome>)
    ensures |r| == |vs| && forall i :: 0 <= i < |vs| ==> r[i] == Visit(dirname, vs[i])
  {
    seq(|vs|, i requires 0 <= i < |vs| => Visit(dirname, vs[i]))
  }

  /** The loop over the visits' outcomes: each visit's effects in turn, until a visit fails
      outside the inner try; the outer catch then reports it and no later visit happens. */
  function Loop(outcomes: seq<Outcome>): seq<Event> {
    if outcomes == [] then []
    else if outcomes[0].failure.Some? then outcomes[0].events + [RunFailed(outcomes[0].failure.value)]
    else outcomes[0].events + Loop(outcomes[1..])
  }

  /** The loop from any visit on: that visit's effects, then either its outer-catch report
      or the loop from the next visit. */
  lemma LoopStep(outcomes: seq<Outcome>, i: nat)
    requires i < |outcomes|
    ensures Loop(outcomes[i..]) ==
              outcomes[i].events +
              (if outcomes[i].failure.Some? then [RunFailed(outcomes[i].failure.value)] else Loop(outcomes[i + 1..]))
  {
    assert outcomes[i..][0] == outcomes[i];
    assert outcomes[i..][1..] == outcomes[i + 1..];
  }

  /** The whole run: the catalog, the loop, and the browser closed in `finally`. */
  function RunTrace(dirname: string, catalog: Catalog): seq<Event> {
    (match catalog
     case Unreachable => [RunFailed(CatalogFailed)]
     case Listed(vs) => Loop(Visits(dirname, vs)))
    + [BrowserClosed]
  }

  /** A product that could be opened and closed always ends with its failure report and
      its page closed, and the loop goes on. */
  lemma VisitReported(dirname: string, v: ProductVisit)
    requires v.reached && v.closed
    ensures var o := Visit(dirname, v);
            && o.failure.None?
            && |o.events| >= 2
            && o.events[|o.events| - 2].ProductFailed?
            && o.events[|o.events| - 2].link == v.link
            && Some(o.events[|o.events| - 2].failure) == Block(dirname, v.page, v.mkdirOk).failure
            && o.events[|o.events| - 1] == PageClosed(v.link)
  {
    BlockAlwaysThrows(dirname, v.page, v.mkdirOk);
  }

  /** A visit's effects are the block's, then reports and the page's closing; never a CSV
      write, the browser's closing or an outer-catch report. */
  lemma VisitEvents(dirname: string, v: ProductVisit)
    ensures forall k :: 0 <= k < |Visit(dirname, v).events| ==>
              var e := Visit(dirname, v).events[k];
              !e.CsvWritten? && e != BrowserClosed && !e.RunFailed?
  {
    if v.reached {
      BlockEvents(dirname, v.page, v.mkdirOk);
      ReportEvents(v.link, Block(dirname, v.page, v.mkdirOk), v.closed);
    }
  }

  /** Reporting and closing add only a failure report and the page's closing to what the
      block did. */
  lemma ReportEvents(link: string, b: Outcome, closed: bool)
    requires forall k :: 0 <= k < |b.events| ==> b.events[k].DirectoryCreated? || b.events[k].ImageSaved?
    ensures forall k :: 0 <= k < |Report(link, b, closed).events| ==>
              var e := Report(link, b, closed).events[k];
              !e.CsvWritten? && e != BrowserClosed && !e.RunFailed?
  {
    var events := Report(link, b, closed).events;
    forall k | 0 <= k < |events| ensures !events[k].CsvWritten? && events[k] != BrowserClosed && !events[k].RunFailed? {
      if k < |b.events| {
        assert events[k] == b.events[k];
      }
    }
  }

  /** A product page that cannot be opened ends the run: its page is never closed and no
      later product is visited. */
  lemma NavigationFailureAborts(dirname: string, v: ProductVisit, rest: seq<ProductVisit>)
    requires !v.reached
    ensures Loop(Visits(dirname, [v] + rest)) == [RunFailed(NavigationFailed(v.link))]
  {
    assert Visits(dirname, [v] + rest)[0] == Visit(dirname, v);
  }

  /** Visits that fail only inside the inner try do not affect the ones after them: the
      trace is that of the first part followed by that of the rest. */
  lemma {:induction false} LoopAppend(a: seq<Outcome>, b: seq<Outcome>)
    requires forall k :: 0 <= k < |a| ==> a[k].failure.None?
    ensures Loop(a + b) == Loop(a) + Loop(b)
    decreases |a|
  {
    if a == [] {
      assert a + b == b;
    } else {
      assert (a + b)[0] == a[0] && (a + b)[1..] == a[1..] + b;
      LoopAppend(a[1..], b);
    }
  }

  /** A visit that fails outside the inner try ends the loop there: what follows it in the
      catalog is never visited. */
  lemma LoopAbort(a: seq<Outcome>, o: Outcome, b: seq<Outcome>)
    requires forall k :: 0 <= k < |a| ==> a[k].failure.None?
    requires o.failure.Some?
    ensures Loop(a + [o] + b) == Loop(a) + o.events + [RunFailed(o.failure.value)]
  {
    assert a + [o] + b == a + ([o] + b);
    LoopAppend(a, [o] + b);
    assert ([o] + b)[0] == o;
  }

  /** The loop adds only outer-catch reports to the visits' own effects. */
  lemma {:induction false} LoopEvents(outcomes: seq<Outcome>)
    requires forall i, k :: 0 <= i < |outcomes| && 0 <= k < |outcomes[i].events| ==>
               !outcomes[i].events[k].CsvWritten? && outcomes[i].events[k] != BrowserClosed
    ensures forall k :: 0 <= k < |Loop(outcomes)| ==> !Loop(outcomes)[k].CsvWritten? && Loop(outcomes)[k] != BrowserClosed
    decreases |outcomes|
  {
    if outcomes != [] && outcomes[0].failure.None? {
      LoopEvents(outcomes[1..]);
      var e0: seq<Event> := outcomes[0].events;
      var rest: seq<Event> := Loop(outcomes[1..]);
      var t: seq<Event> := e0 + rest;
      forall k | 0 <= k < |t| ensures !t[k].CsvWritten? && t[k] != BrowserClosed {
        if k >= |e0| {
          assert t[k] == rest[k - |e0|];
        } else {
          assert t[k] == outcomes[0].events[k];
        }
      }
    }
  }

  lemma VisitsEvents(dirname: string, vs: seq<ProductVisit>)
    ensures var outcomes := Visits(dirname, vs);
            forall i, k :: 0 <= i < |outcomes| && 0 <= k < |outcomes[i].events| ==>
              !outcomes[i].events[k].CsvWritten? && outcomes[i].events[k] != BrowserClosed
  {
    forall i | 0 <= i < |vs| {
      VisitEvents(dirname, vs[i]);
    }
  }

  /** The browser is closed exactly once, as the very last thing the run does, whether the
      catalog failed, a product aborted the loop or every product was visited. */
  lemma BrowserClosedOnceLast(dirname: string, catalog: Catalog)
    ensures var t := RunTrace(dirname, catalog);
            t != [] && t[|t| - 1] == BrowserClosed &&
            forall k :: 0 <= k < |t| - 1 ==> t[k] != BrowserClosed
  {
    if catalog.Listed? {
      VisitsEvents(dirname, catalog.visits);
      LoopEvents(Visits(dirname, catalog.visits));
    }
  }

  /** No run ever writes a `product_data.csv`. */
  lemma NoCsvEverWritten(dirname: string, catalog: Catalog)
    ensures forall k :: 0 <= k < |RunTrace(dirname, catalog)| ==> !RunTrace(dirname, catalog)[k].CsvWritten?
  {
    if catalog.Listed? {
      VisitsEvents(dirname, catalog.visits);
      LoopEvents(Visits(dirname, catalog.visits));
    }
  }

  /** One iteration of the loop body outside the inner try: open, process, report, close. */
  method VisitProduct(dirname: string, v: ProductVisit) returns (events: seq<Event>, fatal: Option<Failure>)
    ensures Outcome(events, fatal) == Visit(dirname, v)
  {
    if !v.reached {
      return [], Some(NavigationFailed(v.link));
    }
    var blockEvents, thrown := ProcessProduct(dirname, v.page, v.mkdirOk);
    events, fatal := ReportAndClose(v.link, blockEvents, thrown, v.closed);
  }

  /** The catch of lines 137-139 and the `productPage.close()` of line 141. */
  method ReportAndClose(link: string, blockEvents: seq<Event>, thrown: Option<Failure>, closed: bool)
    returns (events: seq<Event>, fatal: Option<Failure>)
    ensures Outcome(events, fatal) == Report(link, Outcome(blockEvents, thrown), closed)
  {
    events := blockEvents;
    if thrown.Some? {
      events := events + [ProductFailed(link, thrown.value)];
    }
    if !closed {
      return events, Some(CloseFailed(link));
    }
    events := events + [PageClosed(link)];
    fatal := None;
  }

  /** The `for` loop of lines 102-142 over the catalog's product links. */
  method VisitAll(dirname: string, productLinks: seq<ProductVisit>) returns (trace: seq<Event>)
    ensures trace == Loop(Visits(dirname, productLinks))
  {
    ghost var outcomes := Visits(dirname, productLinks);
    trace := [];
    var i := 0;
    var fatal: Option<Failure> := None;
    while i < |productLinks| && fatal.None?
      invariant 0 <= i <= |productLinks|
      invariant fatal.None? ==> trace + Loop(outcomes[i..]) == Loop(outcomes)
      invariant fatal.Some? ==> trace == Loop(outcomes)
    {
      var events;
      events, fatal := VisitProduct(dirname, productLinks[i]);
      assert outcomes[i] == Outcome(events, fatal);
      LoopStep(outcomes, i);
      trace := trace + events;
      if fatal.Some? {
        trace := trace + [RunFailed(fatal.value)];
      }
      i := i + 1;
    }
    if fatal.None? {
      assert outcomes[i..] == [];
    }
  }

  /** The script: the catalog, the loop over its product links, and `finally`. */
  method Run(dirname: string, catalog: Catalog) returns (trace: seq<Event>)
    ensures trace == RunTrace(dirname, catalog)
  {
    match catalog {
      case Unreachable =>
        trace := [RunFailed(CatalogFailed)];
      case Listed(productLinks) =>
        trace := VisitAll(dirname, productLinks);
    }
    trace := trace + [BrowserClosed];
  }
}
