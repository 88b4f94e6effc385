/** The book scraper of question2_data_analysis (1_scraper.py). The network and the
    HTML parser are abstracted: a request is answered by the sequence of outcomes of
    its successive attempts (None for a request error, Some(content) for a response),
    and a listing page is given as the fields its selectors find in each product. */
module Scraper {
  import opened Outcomes
  import Text
  import Numbers
  import Seqs

  /** MAX_RETRIES: attempts per request. */
  const MaxRetries: nat := 3
  /** PAGES_TO_SCRAPE: listing pages visited, numbered from 1. */
  const PagesToScrape: nat := 10

  /** The outcome of attempt i, counted from 0; attempts past the recorded ones fail. */
  function AttemptAt<T>(outcomes: seq<Option<T>>, i: nat): Option<T> {
    if i < |outcomes| then outcomes[i] else None
  }

  /** The first attempt, from `from` on and within MaxRetries, that gets a response. */
  function FirstSuccess<T>(outcomes: seq<Option<T>>, from: nat): (r: Option<nat>)
    requires from <= MaxRetries
    ensures r.Some? ==>
      from <= r.value < MaxRetries && AttemptAt(outcomes, r.value).Some?
      && forall i :: from <= i < r.value ==> AttemptAt(outcomes, i).None?
    ensures r.None? ==> forall i :: from <= i < MaxRetries ==> AttemptAt(outcomes, i).None?
    decreases MaxRetries - from
  {
    if from == MaxRetries then None
    else if AttemptAt(outcomes, from).Some? then Some(from)
    else FirstSuccess(outcomes, from + 1)
  }

  /** What request_with_retry returns: the first response, or None once every
      attempt has failed. */
  function Retry<T>(outcomes: seq<Option<T>>): (r: Option<T>)
    ensures r.Some? <==> exists i :: 0 <= i < MaxRetries && AttemptAt(outcomes, i).Some?
  {
    match FirstSuccess(outcomes, 0)
    case None => None
    case Some(i) => AttemptAt(outcomes, i)
  }

  /** How many attempts request_with_retry makes. */
  function AttemptsUsed<T>(outcomes: seq<Option<T>>): (n: nat)
    ensures 1 <= n <= MaxRetries
    ensures Retry(outcomes).Some? ==> Retry(outcomes) == AttemptAt(outcomes, n - 1)
    ensures Retry(outcomes).None? ==> n == MaxRetries
    ensures forall i :: 0 <= i < n - 1 ==> AttemptAt(outcomes, i).None?
  {
    match FirstSuccess(outcomes, 0)
    case None => MaxRetries
    case Some(i) => i + 1
  }

  /** request_with_retry: tries up to MaxRetries times and returns the first
      response; after a failed attempt it pauses only when another attempt follows,
      so it pauses one time fewer than it attempts, and it returns None rather than
      raising when all attempts fail. */
  method RequestWithRetry<T>(outcomes: seq<Option<T>>) returns (response: Option<T>, attempts: nat, pauses: nat)
    ensures response == Retry(outcomes)
    ensures attempts == AttemptsUsed(outcomes)
    ensures pauses == attempts - 1
  {
    var attempt := 1;
    pauses := 0;
    while attempt <= MaxRetries
      invariant 1 <= attempt <= MaxRetries
      invariant pauses == attempt - 1
      invariant FirstSuccess(outcomes, 0) == FirstSuccess(outcomes, attempt - 1)
      decreases MaxRetries - attempt
    {
      var outcome := AttemptAt(outcomes, attempt - 1);
      if outcome.Some? {
        return outcome, attempt, pauses;
      }
      if attempt < MaxRetries {
        pauses := pauses + 1;
      } else {
        return None, attempt, pauses;
      }
      attempt := attempt + 1;
    }
  }

  /** A request whose first k attempts fail and whose next succeeds pauses k times;
      one whose attempts all fail pauses MaxRetries - 1 times. */
  lemma PausesFollowFailures<T>(outcomes: seq<Option<T>>, k: nat)
    requires k < MaxRetries && AttemptAt(outcomes, k).Some?
    requires forall i :: 0 <= i < k ==> AttemptAt(outcomes, i).None?
    ensures Retry(outcomes) == AttemptAt(outcomes, k) && AttemptsUsed(outcomes) - 1 == k
  {
  }

  /** RATING_MAP's keys in the order of the ratings they stand for. */
  const RatingWords: seq<string> := ["One", "Two", "Three", "Four", "Five"]

  /** RATING_MAP.get(word, 0): the five words map to 1 to 5 and every other word to 0. */
  function RatingOf(word: string): (n: nat)
    ensures n <= 5
    ensures n == 0 <==> word !in RatingWords
    ensures n > 0 ==> RatingWords[n - 1] == word
  {
    if word == "One" then 1
    else if word == "Two" then 2
    else if word == "Three" then 3
    else if word == "Four" then 4
    else if word == "Five" then 5
    else 0
  }

  /** The rating word of a star-rating paragraph: its first class other than
      "star-rating", or "" when it has none. */
  function RatingWord(classes: seq<string>): (w: string)
    ensures (forall i :: 0 <= i < |classes| ==> classes[i] == "star-rating") ==> w == ""
    ensures (exists i :: 0 <= i < |classes| && classes[i] != "star-rating") ==>
      exists i :: 0 <= i < |classes| && classes[i] == w && w != "star-rating"
        && forall j :: 0 <= j < i ==> classes[j] == "star-rating"
  {
    if classes == [] then ""
    else if classes[0] != "star-rating" then classes[0]
    else
      var w := RatingWord(classes[1..]);
      assert forall i :: 1 <= i < |classes| ==> classes[i] == classes[1..][i - 1];
      if exists i :: 0 <= i < |classes| && classes[i] != "star-rating" then
        var i :| 0 <= i < |classes[1..]| && classes[1..][i] == w && w != "star-rating"
          && forall j :: 0 <= j < i ==> classes[1..][j] == "star-rating";
        assert classes[i + 1] == w;
        w
      else w
  }

  /** extract_category after the request: the third breadcrumb's stripped text when
      the product page was fetched and has at least three breadcrumbs, otherwise
      "Unknown". */
  function CategoryOf(response: Option<seq<string>>): (c: string)
    ensures response.None? ==> c == "Unknown"
    ensures response.Some? && |response.value| < 3 ==> c == "Unknown"
    ensures response.Some? && |response.value| >= 3 ==> c == Text.Strip(response.value[2])
    ensures c != "Unknown" ==>
      response.Some? && |response.value| >= 3 && c == Text.Strip(response.value[2])
  {
    if response.None? then "Unknown"
    else if |response.value| >= 3 then Text.Strip(response.value[2])
    else "Unknown"
  }

  /** extract_category: fetches the product page with retries, pauses once more
      whatever the outcome, and picks the category from the breadcrumbs. */
  method ExtractCategory(detail: seq<Option<seq<string>>>) returns (category: string, attempts: nat, pauses: nat)
    ensures category == CategoryOf(Retry(detail))
    ensures attempts == AttemptsUsed(detail) && pauses == attempts
  {
    var response, retryPauses;
    response, attempts, retryPauses := RequestWithRetry(detail);
    pauses := retryPauses + 1;
    if response.None? {
      return "Unknown", attempts, pauses;
    }
    if |response.value| >= 3 {
      return Text.Strip(response.value[2]), attempts, pauses;
    }
    category := "Unknown";
  }

  /** What the selectors of one article.product_pod find, None where a selector
      finds nothing (which makes the item raise). `detail` answers the requests for
      the book's own page, each response being its breadcrumb texts. */
  datatype Pod = Pod(
    title: Option<string>,
    price: Option<string>,
    availability: Option<string>,
    ratingClasses: Option<seq<string>>,
    link: Option<string>,
    detail: seq<Option<seq<string>>>)

  /** One scraped book, with the dictionary keys of the CSV. */
  datatype Book = Book(title: string, price: string, rating: nat, category: string, availability: string)

  /** Whether every field the item reads is present, so that it does not raise. */
  predicate Complete(p: Pod) {
    p.title.Some? && p.price.Some? && p.availability.Some? && p.ratingClasses.Some? && p.link.Some?
  }

  /** The book a complete product yields. */
  function BookOf(p: Pod): Book
    requires Complete(p)
  {
    Book(Text.Strip(p.title.value), p.price.value, RatingOf(RatingWord(p.ratingClasses.value)),
         CategoryOf(Retry(p.detail)), p.availability.value)
  }

  /** What one product contributes: its book, or nothing when it raises. */
  function Yield(p: Pod): seq<Book> {
    if Complete(p) then [BookOf(p)] else []
  }

  /** The books of one listing page, in product order, skipping products that raise. */
  function PageBooks(pods: seq<Pod>): (books: seq<Book>)
    ensures |books| <= |pods|
  {
    if pods == [] then []
    else PageBooks(pods[..|pods| - 1]) + Yield(pods[|pods| - 1])
  }

  /** The page's books are what its products yield, joined in order. */
  lemma {:induction false} PageBooksYields(pods: seq<Pod>)
    ensures PageBooks(pods) == Seqs.FlatMap(pods, Yield)
  {
    if pods != [] {
      PageBooksYields(pods[..|pods| - 1]);
    }
  }

  /** A page's books are those of its first products followed by those of the rest. */
  lemma PageBooksConcat(a: seq<Pod>, b: seq<Pod>)
    ensures PageBooks(a + b) == PageBooks(a) + PageBooks(b)
  {
    PageBooksYields(a + b);
    PageBooksYields(a);
    PageBooksYields(b);
    Seqs.FlatMapConcat(a, b, Yield);
  }

  /** A product that raises is skipped without affecting the products around it. */
  lemma BadProductSkipped(a: seq<Pod>, p: Pod, b: seq<Pod>)
    requires !Complete(p)
    ensures PageBooks(a + [p] + b) == PageBooks(a) + PageBooks(b)
  {
    PageBooksConcat(a + [p], b);
    assert (a + [p])[..|a + [p]| - 1] == a;
    assert PageBooks(a + [p]) == PageBooks(a);
  }

  /** The polite pauses the products of one page cost: each complete product fetches
      its own page through extract_category, which pauses once per attempt; a product
      that raises does so before that request. */
  function PagePauses(pods: seq<Pod>): nat {
    if pods == [] then 0
    else
      var p := pods[|pods| - 1];
      PagePauses(pods[..|pods| - 1]) + (if Complete(p) then AttemptsUsed(p.detail) else 0)
  }

  /** The pauses one listing page costs: one per failed attempt of its request, the
      pause that always follows the request, and those of its products when it was
      fetched. */
  function PageWaits(outcomes: seq<Option<seq<Pod>>>): (n: nat)
    ensures n >= 1
  {
    AttemptsUsed(outcomes) + match Retry(outcomes) { case None => 0 case Some(pods) => PagePauses(pods) }
  }

  /** The pauses pages 1 to n cost, in total. */
  function TotalPauses(site: seq<seq<Option<seq<Pod>>>>, n: nat): nat {
    if n == 0 then 0 else TotalPauses(site, n - 1) + PageWaits(PageOutcomes(site, n))
  }

  /** Each product of a page costs at most one pause per allowed attempt, and none
      when it raises. */
  lemma {:induction false} PagePausesBounds(pods: seq<Pod>)
    ensures PagePauses(pods) <= MaxRetries * |pods|
    ensures (forall k :: 0 <= k < |pods| ==> !Complete(pods[k])) ==> PagePauses(pods) == 0
  {
    if pods != [] {
      PagePausesBounds(pods[..|pods| - 1]);
    }
  }

  /** Every visited page costs at least one pause, and at most one per allowed attempt
      for the page and for each of its products. */
  lemma {:induction false} TotalPausesBounds(site: seq<seq<Option<seq<Pod>>>>, n: nat, most: nat)
    requires forall k :: 0 <= k < |site| ==> Retry(site[k]).Some? ==> |Retry(site[k]).value| <= most
    ensures n <= TotalPauses(site, n) <= n * (MaxRetries * (1 + most))
  {
    if n > 0 {
      TotalPausesBounds(site, n - 1, most);
      var cap := MaxRetries * (1 + most);
      assert n * cap == (n - 1) * cap + cap;
      PageWaitsBound(PageOutcomes(site, n), most);
    }
  }

  /** One page costs at most one pause per allowed attempt for itself and for each of
      at most `most` products. */
  lemma PageWaitsBound(outcomes: seq<Option<seq<Pod>>>, most: nat)
    requires Retry(outcomes).Some? ==> |Retry(outcomes).value| <= most
    ensures PageWaits(outcomes) <= MaxRetries * (1 + most)
  {
    if Retry(outcomes).Some? {
      var pods := Retry(outcomes).value;
      PagePausesBounds(pods);
      assert MaxRetries * |pods| <= MaxRetries * most;
    }
  }

  /** The responses to the requests for listing page `page` (from 1); pages beyond
      the recorded ones fail. */
  function PageOutcomes(site: seq<seq<Option<seq<Pod>>>>, page: nat): seq<Option<seq<Pod>>> {
    if 1 <= page <= |site| then site[page - 1] else []
  }

  /** The books a listing page contributes: none when it could not be fetched. */
  function PageResult(outcomes: seq<Option<seq<Pod>>>): (books: seq<Book>)
    ensures Retry(outcomes).None? ==> books == []
  {
    match Retry(outcomes)
    case None => []
    case Some(pods) => PageBooks(pods)
  }

  /** The books of pages 1 to n, in page order and within a page in product order. */
  function Scraped(site: seq<seq<Option<seq<Pod>>>>, n: nat): seq<Book> {
    Seqs.Concat(PageResults(site, n))
  }

  /** What each of pages 1 to n contributes, in page order. */
  function PageResults(site: seq<seq<Option<seq<Pod>>>>, n: nat): (r: seq<seq<Book>>)
    ensures |r| == n
  {
    if n == 0 then [] else PageResults(site, n - 1) + [PageResult(PageOutcomes(site, n))]
  }

  /** Entry k of the page results is what page k + 1 contributes, from its own
      responses alone. */
  lemma {:induction false} PageResultsAt(site: seq<seq<Option<seq<Pod>>>>, n: nat, k: nat)
    requires k < n
    ensures PageResults(site, n)[k] == PageResult(PageOutcomes(site, k + 1))
  {
    var earlier, last := PageResults(site, n - 1), PageResult(PageOutcomes(site, n));
    assert PageResults(site, n) == earlier + [last];
    if k < n - 1 {
      PageResultsAt(site, n - 1, k);
      assert (earlier + [last])[k] == earlier[k];
    } else {
      assert k + 1 == n;
      assert (earlier + [last])[k] == last;
    }
  }

  /** The inner loop of scrape_books over the products of one listing page. */
  method ScrapePage(pods: seq<Pod>) returns (books: seq<Book>, pauses: nat)
    ensures books == PageBooks(pods)
    ensures pauses == PagePauses(pods)
  {
    books, pauses := [], 0;
    for k := 0 to |pods|
      invariant books == PageBooks(pods[..k])
      invariant pauses == PagePauses(pods[..k])
    {
      var p := pods[k];
      assert pods[..k + 1][..k] == pods[..k];
      if !Complete(p) {
        continue;
      }
      var category, attempts, categoryPauses := ExtractCategory(p.detail);
      pauses := pauses + categoryPauses;
      var rating := RatingOf(RatingWord(p.ratingClasses.value));
      var book := Book(Text.Strip(p.title.value), p.price.value, rating, category, p.availability.value);
      assert book == BookOf(p);
      books := books + [book];
    }
    assert pods[..|pods|] == pods;
  }

  /** scrape_books: visits pages 1 to PagesToScrape in order, skips a page whose
      request fails after its retries and a product that raises, and appends the
      books in page-then-product order. */
  method ScrapeBooks(site: seq<seq<Option<seq<Pod>>>>) returns (books: seq<Book>, pauses: nat)
    ensures books == Scraped(site, PagesToScrape)
    ensures pauses == TotalPauses(site, PagesToScrape)
  {
    books, pauses := [], 0;
    for page := 1 to PagesToScrape + 1
      invariant books == Scraped(site, page - 1)
      invariant pauses == TotalPauses(site, page - 1)
    {
      var outcomes := PageOutcomes(site, page);
      ScrapedStep(site, page);
      var response, attempts, retryPauses := RequestWithRetry(outcomes);
      pauses := pauses + retryPauses + 1;
      if response.None? {
        assert books + PageResult(outcomes) == books;
        continue;
      }
      var found, pagePauses := ScrapePage(response.value);
      books, pauses := books + found, pauses + pagePauses;
    }
  }

  /** Visiting page `page` adds its books after those of the earlier pages. */
  lemma {:induction false} ScrapedStep(site: seq<seq<Option<seq<Pod>>>>, page: nat)
    requires page >= 1
    ensures Scraped(site, page) == Scraped(site, page - 1) + PageResult(PageOutcomes(site, page))
  {
    var r := PageResults(site, page);
    assert r[..page - 1] == PageResults(site, page - 1);
  }

  /** A page that fails after its retries contributes nothing and leaves the other
      pages' books in place: the result is as if the page had never answered. */
  lemma FailedPageSkipped(site: seq<seq<Option<seq<Pod>>>>, page: nat, n: nat)
    requires 1 <= page <= |site| && Retry(site[page - 1]).None?
    ensures Scraped(site, n) == Scraped(site[page - 1 := []], n)
  {
    var other := site[page - 1 := []];
    assert PageResults(site, n) == PageResults(other, n) by {
      forall k | 0 <= k < n ensures PageResults(site, n)[k] == PageResults(other, n)[k] {
        OtherPageUnchanged(site, page, k + 1);
        PageResultsAt(site, n, k);
        PageResultsAt(other, n, k);
      }
    }
  }

  /** Emptying the responses of a page that failed anyway changes no page's books. */
  lemma OtherPageUnchanged(site: seq<seq<Option<seq<Pod>>>>, page: nat, k: nat)
    requires 1 <= page <= |site| && Retry(site[page - 1]).None?
    ensures PageResult(PageOutcomes(site, k)) == PageResult(PageOutcomes(site[page - 1 := []], k))
  {
    var other := site[page - 1 := []];
    if k == page {
      assert PageOutcomes(other, k) == [];
      assert FirstSuccess(PageOutcomes(other, k), 0).None?;
    } else {
      assert PageOutcomes(site, k) == PageOutcomes(other, k);
    }
  }

  /** Only the first n pages count towards the books of pages 1 to n. */
  lemma LaterPagesIgnored(site: seq<seq<Option<seq<Pod>>>>, n: nat)
    requires n <= |site|
    ensures Scraped(site, n) == Scraped(site[..n], n)
  {
    forall k | 0 <= k < n ensures PageResults(site, n)[k] == PageResults(site[..n], n)[k] {
      assert PageOutcomes(site, k + 1) == PageOutcomes(site[..n], k + 1);
      PageResultsAt(site, n, k);
      PageResultsAt(site[..n], n, k);
    }
    assert PageResults(site, n) == PageResults(site[..n], n);
  }

  /** save_to_csv's header row. */
  const FieldNames: seq<string> := ["title", "price_gbp", "rating", "category", "availability"]

  /** One book as its CSV fields, in header order. */
  function CsvRow(b: Book): (row: seq<string>)
    ensures |row| == |FieldNames|
  {
    [b.title, b.price, Numbers.NatToString(b.rating), b.category, b.availability]
  }

  /** save_to_csv: nothing is written for an empty list; otherwise the header and
      one row per book, in order. */
  function SaveToCsv(data: seq<Book>): (file: Option<seq<seq<string>>>)
    ensures file.None? <==> data == []
    ensures file.Some? ==>
      |file.value| == |data| + 1 && file.value[0] == FieldNames
      && forall i :: 0 <= i < |data| ==> file.value[i + 1] == CsvRow(data[i])
  {
    if data == [] then None
    else Some([FieldNames] + seq(|data|, i requires 0 <= i < |data| => CsvRow(data[i])))
  }

  /** The rating column of a saved row parses back to the book's rating. */
  lemma SavedRatingReadsBack(data: seq<Book>, i: nat)
    requires i < |data|
    ensures SaveToCsv(data).Some?
    ensures Numbers.ParseNumber(SaveToCsv(data).value[i + 1][2]) == Some(data[i].rating as real)
  {
    Numbers.ParseNatString(data[i].rating);
  }
}
