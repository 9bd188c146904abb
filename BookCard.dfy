/**
 * One card of the library grid: the rounded progress percentage and which of
 * the progress bar, the "Completed" badge, the progress row and the bookmark
 * icon it shows.
 */
module BookCard {
  import opened Books
  import opened Numeric
  import DashboardStats

  /** `progressPercentage`: 0 when the page count is 0 (falsy), else the rounded percentage. */
  function Percentage(b: Book): (r: int)
    ensures b.totalPages == 0 ==> r == 0
    ensures 0 <= b.currentPage <= b.totalPages ==> 0 <= r <= 100
  {
    if b.totalPages == 0 then 0
    else
      if 0 <= b.currentPage <= b.totalPages then
        RoundedPercentBounds(b.currentPage, b.totalPages);
        RoundedPercent(b.currentPage, b.totalPages)
      else RoundedPercent(b.currentPage, b.totalPages)
  }

  datatype CardView = CardView(
    percentage: int,
    showBar: bool,
    showCompleted: bool,
    showProgressRow: bool,
    showBookmark: bool)

  /** The display conditions of the card. */
  function Card(b: Book): (r: CardView)
    ensures r.showBar || r.showCompleted ==> r.showProgressRow
    ensures r.showBookmark <==> IsBookmarked(b)
  {
    var p := Percentage(b);
    CardView(p, 0 < p < 100, p == 100, p > 0, IsBookmarked(b))
  }

  /** Bar and badge are never shown together, and whatever shows the bar shows the progress row. */
  lemma CardIndicatorsExclusive(b: Book)
    ensures !(Card(b).showBar && Card(b).showCompleted)
    ensures Card(b).showBar || Card(b).showCompleted ==> Card(b).showProgressRow
    ensures Card(b).showBookmark <==> IsBookmarked(b)
  {
  }

  /**
   * For a position within the book: the percentage is in [0, 100]; the badge
   * shows iff the position reaches 99.5% of the pages; the bar shows iff it is
   * at least 0.5% and below 99.5%; the progress row iff it is at least 0.5%.
   */
  lemma CardThresholds(b: Book)
    requires 0 <= b.currentPage <= b.totalPages && b.totalPages > 0
    ensures 0 <= Card(b).percentage <= 100
    ensures Card(b).showCompleted <==> 200 * b.currentPage >= 199 * b.totalPages
    ensures Card(b).showBar <==> b.totalPages <= 200 * b.currentPage < 199 * b.totalPages
    ensures Card(b).showProgressRow <==> 200 * b.currentPage >= b.totalPages
  {
    RoundedPercentBounds(b.currentPage, b.totalPages);
    RoundedPercentIsHundred(b.currentPage, b.totalPages);
    RoundedPercentIsZero(b.currentPage, b.totalPages);
  }

  /** A book without a page count shows neither bar, badge nor progress row. */
  lemma NoPageCountShowsNoProgress(b: Book)
    requires b.totalPages == 0
    ensures Card(b).percentage == 0 && !Card(b).showBar && !Card(b).showCompleted && !Card(b).showProgressRow
  {
  }

  /** A book the dashboard counts as completed shows the badge. */
  lemma CompletedShowsBadge(b: Book)
    requires DashboardStats.Completed(b)
    ensures Card(b).showCompleted
  {
    RoundedPercentOfWhole(b.totalPages);
  }

  /**
   * The converse fails: on page 199 of 200 the card already shows the badge
   * while the dashboard does not count the book as completed.
   */
  lemma BadgeBeforeLastPage(b: Book)
    requires b.currentPage == 199 && b.totalPages == 200
    ensures Card(b).showCompleted && !DashboardStats.Completed(b)
  {
    CardThresholds(b);
  }
}
