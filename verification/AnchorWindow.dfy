/** The next window of a tenant, shared by the scheduled cycle and the on-demand publish route. */
module AnchorWindow {
  import opened Options
  import opened AnchorTables

  const MAX_ANCHOR_WINDOW_MS: int := 7 * 24 * 60 * 60 * 1000

  function Max(a: int, b: int): int { if a < b then b else a }

  function NextAnchorWindow(coveredTo: Option<int>, oldestUnanchored: int, now: int, maxWindowMs: int): Window {
    var afterCovered := if coveredTo.None? then oldestUnanchored else coveredTo.value + 1;
    var periodStart := Max(afterCovered, oldestUnanchored);
    Window(periodStart, if now - periodStart > maxWindowMs then periodStart + maxWindowMs else now)
  }

  /** A window never reaches back into what is covered, nor past now, nor beyond its maximal length;
      and it holds every unanchored event up to its end, in particular the oldest one. */
  lemma WindowStartsAtBacklog(coveredTo: Option<int>, oldest: int, now: int, maxWindowMs: nat, at: int)
    requires After(oldest, coveredTo)
    ensures var w := NextAnchorWindow(coveredTo, oldest, now, maxWindowMs);
      && w.start == oldest
      && After(w.start, coveredTo)
      && w.end <= now && w.end - w.start <= maxWindowMs
      && (w.end < now ==> w.end == w.start + maxWindowMs)
      && (oldest <= now ==> Contains(w, oldest))
      && (oldest <= at <= w.end ==> Contains(w, at))
  {
  }
}
