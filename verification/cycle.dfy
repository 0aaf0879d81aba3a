/**
 * One checking cycle, `check_all_once`: every product URL is fetched in turn,
 * its page hashed and classified, and an alert raised when an in-stock page
 * differs from the digest remembered for that URL.
 *
 * Fetching is an input (a page or a failure per URL); the digest function and
 * the in-stock test are parameters, so the cycle holds for any deterministic
 * choice of them, `PageIndicatesInStock` of the page's text among them.
 */
module Cycle {
  import opened Wrappers
  import opened StateFile

  /** What fetching one URL gave: the page's HTML, or an error (caught and logged). */
  datatype FetchOutcome = Page(html: string) | FetchFailed

  /** One URL of the watch list together with what fetching it gave in this cycle. */
  datatype Check = Check(url: Url, outcome: FetchOutcome)

  /** The state after a cycle and the URLs alerted about, in order. */
  datatype Report = Report(hashes: Hashes, notified: seq<Url>)

  /** The products watched, in the order they are checked. */
  const ProductUrls: seq<Url> := [
    "https://www.bol.com/nl/nl/p/-/9300000235555648/",
    "https://www.bol.com/nl/nl/p/me01-mega-evolution-etb-mega-gardevoir/9300000235555646/",
    "https://www.bol.com/nl/nl/p/pokemon-tcg-mega-evolution-6-booster-bundel/9300000235555645/",
    "https://www.bol.com/nl/nl/p/me01-mega-evolution-bo-18ct-display/9300000235555637/"
  ]

  /** The alert condition: in stock, and the digest differs from the stored one or none is stored. */
  predicate Alerts(last: Hashes, url: Url, current: Digest, inStock: bool) {
    inStock && (url !in last || last[url] != current)
  }

  /** The body of the loop of `check_all_once` for one URL. */
  function CheckUrl(last: Hashes, c: Check, hash: string -> Digest, inStock: string -> bool): (r: Report)
    ensures c.outcome.FetchFailed? ==> r == Report(last, [])
    ensures c.outcome.Page? ==>
              var current := hash(c.outcome.html);
              && (Alerts(last, c.url, current, inStock(c.outcome.html)) ==> r.notified == [c.url])
              && (!Alerts(last, c.url, current, inStock(c.outcome.html)) ==> r.notified == [])
              && c.url in r.hashes
              && (c.url in last && !Alerts(last, c.url, current, inStock(c.outcome.html)) ==> r.hashes[c.url] == last[c.url])
              && (c.url !in last || Alerts(last, c.url, current, inStock(c.outcome.html)) ==> r.hashes[c.url] == current)
    ensures r.hashes.Keys == last.Keys + (if c.outcome.Page? then {c.url} else {})
    ensures forall u :: u in last && u != c.url ==> r.hashes[u] == last[u]
  {
    match c.outcome
    case FetchFailed => Report(last, [])
    case Page(html) =>
      var current := hash(html);
      if inStock(html) && (c.url !in last || last[c.url] != current) then
        Report(last[c.url := current], [c.url])
      else if c.url !in last then
        Report(last[c.url := current], [])
      else
        Report(last, [])
  }

  /** The URLs whose fetch succeeded. */
  function FetchedUrls(checks: seq<Check>): set<Url> {
    if checks == [] then {}
    else
      var c := checks[|checks| - 1];
      FetchedUrls(checks[..|checks| - 1]) + (if c.outcome.Page? then {c.url} else {})
  }

  /** `check_all_once` as a fold over the checks of one cycle. */
  function RunCycle(last: Hashes, checks: seq<Check>, hash: string -> Digest, inStock: string -> bool): (r: Report)
    ensures r.hashes.Keys == last.Keys + FetchedUrls(checks)
    ensures forall u :: u in last && u !in FetchedUrls(checks) ==> r.hashes[u] == last[u]
    ensures |r.notified| <= |checks|
  {
    if checks == [] then Report(last, [])
    else
      var before := RunCycle(last, checks[..|checks| - 1], hash, inStock);
      var step := CheckUrl(before.hashes, checks[|checks| - 1], hash, inStock);
      Report(step.hashes, before.notified + step.notified)
  }

  /**
   * `check_all_once` with its loop: a failed fetch is skipped and the loop
   * carries on with the next URL.
   */
  method CheckAllOnce(lastHashes: Hashes, checks: seq<Check>, hash: string -> Digest, inStock: string -> bool)
    returns (hashes: Hashes, notified: seq<Url>)
    ensures Report(hashes, notified) == RunCycle(lastHashes, checks, hash, inStock)
    ensures hashes.Keys == lastHashes.Keys + FetchedUrls(checks)
    ensures Distinct(checks) ==> notified == ExpectedAlerts(lastHashes, checks, hash, inStock)
  {
    hashes := lastHashes;
    notified := [];
    var i := 0;
    while i < |checks|
      invariant 0 <= i <= |checks|
      invariant Report(hashes, notified) == RunCycle(lastHashes, checks[..i], hash, inStock)
    {
      assert checks[..i + 1][..i] == checks[..i];
      ghost var step := CheckUrl(hashes, checks[i], hash, inStock);
      ghost var next := Report(step.hashes, notified + step.notified);
      assert next == RunCycle(lastHashes, checks[..i + 1], hash, inStock);
      var url := checks[i].url;
      match checks[i].outcome {
        case FetchFailed =>
        case Page(html) =>
          var currentHash := hash(html);
          var lastHash := if url in hashes then Some(hashes[url]) else None;
          if inStock(html) && lastHash != Some(currentHash) {
            notified := notified + [url];
            hashes := hashes[url := currentHash];
          } else if lastHash.None? {
            hashes := hashes[url := currentHash];
          }
      }
      assert Report(hashes, notified) == next;
      i := i + 1;
    }
    assert checks[..i] == checks;
    if Distinct(checks) {
      AlertsJudgedAgainstStoredState(lastHashes, checks, hash, inStock);
    }
  }

  /** Alerts go only to URLs whose fetch succeeded in this cycle. */
  lemma {:induction false} AlertsOnlyForFetchedUrls(last: Hashes, checks: seq<Check>, hash: string -> Digest, inStock: string -> bool)
    ensures forall k :: 0 <= k < |RunCycle(last, checks, hash, inStock).notified| ==>
              RunCycle(last, checks, hash, inStock).notified[k] in FetchedUrls(checks)
  {
    if checks != [] {
      var n := |checks| - 1;
      AlertsOnlyForFetchedUrls(last, checks[..n], hash, inStock);
    }
  }

  /** The checks with the failed fetches taken out. */
  function Fetched(checks: seq<Check>): seq<Check> {
    if checks == [] then []
    else
      var c := checks[|checks| - 1];
      Fetched(checks[..|checks| - 1]) + (if c.outcome.Page? then [c] else [])
  }

  /** A failed fetch changes nothing: the cycle comes out as if that URL had not been in the list. */
  lemma {:induction false} FailedFetchesAreSkipped(last: Hashes, checks: seq<Check>, hash: string -> Digest, inStock: string -> bool)
    ensures RunCycle(last, checks, hash, inStock) == RunCycle(last, Fetched(checks), hash, inStock)
  {
    if checks != [] {
      var n := |checks| - 1;
      var c := checks[n];
      FailedFetchesAreSkipped(last, checks[..n], hash, inStock);
      if c.outcome.Page? {
        var f := Fetched(checks);
        assert f == Fetched(checks[..n]) + [c];
        assert f[..|f| - 1] == Fetched(checks[..n]);
      } else {
        assert Fetched(checks) == Fetched(checks[..n]);
      }
    }
  }

  /** No URL appears twice in the watch list. */
  predicate Distinct(checks: seq<Check>) {
    forall i, j :: 0 <= i < j < |checks| ==> checks[i].url != checks[j].url
  }

  /** A URL that succeeded in the cycle is one of its checks. */
  lemma {:induction false} FetchedUrlIsChecked(checks: seq<Check>, u: Url)
    requires u in FetchedUrls(checks)
    ensures exists i :: 0 <= i < |checks| && checks[i].url == u && checks[i].outcome.Page?
  {
    var n := |checks| - 1;
    if checks[n].url == u && checks[n].outcome.Page? {
    } else {
      FetchedUrlIsChecked(checks[..n], u);
      var i :| 0 <= i < n && checks[..n][i].url == u && checks[..n][i].outcome.Page?;
      assert checks[i] == checks[..n][i];
    }
  }

  /** The alerts each URL would raise against the state stored before the cycle, in list order. */
  function ExpectedAlerts(last: Hashes, checks: seq<Check>, hash: string -> Digest, inStock: string -> bool): seq<Url> {
    if checks == [] then []
    else
      var n := |checks| - 1;
      ExpectedAlerts(last, checks[..n], hash, inStock) + CheckUrl(last, checks[n], hash, inStock).notified
  }

  /**
   * The state just before URL number n of a distinct watch list still holds,
   * for that URL, what it held before the cycle.
   */
  lemma EntryUntouchedBeforeItsTurn(last: Hashes, checks: seq<Check>, n: nat, hash: string -> Digest, inStock: string -> bool)
    requires Distinct(checks) && n < |checks|
    ensures var before := RunCycle(last, checks[..n], hash, inStock).hashes;
            var u := checks[n].url;
            (u in before <==> u in last) && (u in last ==> before[u] == last[u])
  {
    var u := checks[n].url;
    if u in FetchedUrls(checks[..n]) {
      FetchedUrlIsChecked(checks[..n], u);
    }
  }

  /**
   * With every URL listed once, the alerts of a cycle are exactly those each URL
   * raises on its own against the stored state: earlier URLs never influence later ones.
   */
  lemma {:induction false} AlertsJudgedAgainstStoredState(last: Hashes, checks: seq<Check>, hash: string -> Digest, inStock: string -> bool)
    requires Distinct(checks)
    ensures RunCycle(last, checks, hash, inStock).notified == ExpectedAlerts(last, checks, hash, inStock)
  {
    if checks != [] {
      var n := |checks| - 1;
      assert Distinct(checks[..n]) by {
        forall i, j | 0 <= i < j < n
          ensures checks[..n][i].url != checks[..n][j].url
        {
          assert checks[..n][i] == checks[i] && checks[..n][j] == checks[j];
        }
      }
      AlertsJudgedAgainstStoredState(last, checks[..n], hash, inStock);
      EntryUntouchedBeforeItsTurn(last, checks, n, hash, inStock);
      var before := RunCycle(last, checks[..n], hash, inStock);
      SameEntrySameAlert(before.hashes, last, checks[n], hash, inStock);
      assert RunCycle(last, checks, hash, inStock).notified
          == before.notified + CheckUrl(before.hashes, checks[n], hash, inStock).notified;
    }
  }

  /** Whether a check alerts depends on the stored state only through that URL's own entry. */
  lemma SameEntrySameAlert(m1: Hashes, m2: Hashes, c: Check, hash: string -> Digest, inStock: string -> bool)
    requires c.url in m1 <==> c.url in m2
    requires c.url in m1 ==> m1[c.url] == m2[c.url]
    ensures CheckUrl(m1, c, hash, inStock).notified == CheckUrl(m2, c, hash, inStock).notified
  {
  }

  /**
   * With every URL listed once, each fetched URL ends the cycle holding the
   * digest its own check would store against the state from before the cycle.
   */
  lemma {:induction false} EachUrlStoredOnItsOwn(last: Hashes, checks: seq<Check>, hash: string -> Digest, inStock: string -> bool)
    requires Distinct(checks)
    ensures forall i :: 0 <= i < |checks| && checks[i].outcome.Page? ==>
              && checks[i].url in RunCycle(last, checks, hash, inStock).hashes
              && RunCycle(last, checks, hash, inStock).hashes[checks[i].url]
                 == CheckUrl(last, checks[i], hash, inStock).hashes[checks[i].url]
  {
    if checks != [] {
      var n := |checks| - 1;
      var init := checks[..n];
      assert Distinct(init) by {
        forall i, j | 0 <= i < j < n
          ensures init[i].url != init[j].url
        {
          assert init[i] == checks[i] && init[j] == checks[j];
        }
      }
      EachUrlStoredOnItsOwn(last, init, hash, inStock);
      EntryUntouchedBeforeItsTurn(last, checks, n, hash, inStock);
      forall i | 0 <= i < n && checks[i].outcome.Page?
        ensures checks[i].url in RunCycle(last, checks, hash, inStock).hashes
        ensures RunCycle(last, checks, hash, inStock).hashes[checks[i].url]
                == CheckUrl(last, checks[i], hash, inStock).hashes[checks[i].url]
      {
        assert init[i] == checks[i];
        assert checks[i].url != checks[n].url;
      }
    }
  }

  /** The stored state already reflects this fetch: checking it again changes nothing. */
  predicate Settled(m: Hashes, c: Check, hash: string -> Digest, inStock: string -> bool) {
    c.outcome.Page? ==> c.url in m && (inStock(c.outcome.html) ==> m[c.url] == hash(c.outcome.html))
  }

  /** A cycle whose every check is settled raises no alert and leaves the state alone. */
  lemma {:induction false} SettledCycleIsQuiet(m: Hashes, checks: seq<Check>, hash: string -> Digest, inStock: string -> bool)
    requires forall i :: 0 <= i < |checks| ==> Settled(m, checks[i], hash, inStock)
    ensures RunCycle(m, checks, hash, inStock) == Report(m, [])
  {
    if checks != [] {
      var n := |checks| - 1;
      assert forall i :: 0 <= i < n ==> checks[..n][i] == checks[i];
      SettledCycleIsQuiet(m, checks[..n], hash, inStock);
      assert Settled(m, checks[n], hash, inStock);
    }
  }

  /** `again` fetches the same URLs as `first` and gets the same pages, except that some fetches may fail. */
  predicate Repeats(first: seq<Check>, again: seq<Check>) {
    |again| == |first|
    && forall i :: 0 <= i < |again| ==>
         again[i].url == first[i].url && (again[i].outcome == first[i].outcome || again[i].outcome.FetchFailed?)
  }

  /**
   * Idempotence: a second cycle over unchanged pages raises no alert and leaves
   * the state as the first cycle left it.
   */
  lemma SecondCycleIsQuiet(last: Hashes, first: seq<Check>, again: seq<Check>, hash: string -> Digest, inStock: string -> bool)
    requires Distinct(first) && Repeats(first, again)
    ensures var m := RunCycle(last, first, hash, inStock).hashes;
            RunCycle(m, again, hash, inStock) == Report(m, [])
  {
    var m := RunCycle(last, first, hash, inStock).hashes;
    EachUrlStoredOnItsOwn(last, first, hash, inStock);
    forall i | 0 <= i < |again|
      ensures Settled(m, again[i], hash, inStock)
    {
      if again[i].outcome.Page? {
        assert again[i] == first[i];
      }
    }
    SettledCycleIsQuiet(m, again, hash, inStock);
  }

  /** A URL holds no space or newline, so it can be written to the state file. */
  predicate Writable(url: Url) {
    ' ' !in url && '\n' !in url
  }

  /** A cycle over writable URLs with a newline-free digest keeps the state writable. */
  lemma {:induction false} CycleKeepsStateWellFormed(last: Hashes, checks: seq<Check>, hash: string -> Digest, inStock: string -> bool)
    requires WellFormed(last)
    requires forall i :: 0 <= i < |checks| ==> Writable(checks[i].url)
    requires forall s :: '\n' !in hash(s)
    ensures WellFormed(RunCycle(last, checks, hash, inStock).hashes)
  {
    if checks != [] {
      var n := |checks| - 1;
      assert forall i :: 0 <= i < n ==> checks[..n][i] == checks[i];
      CycleKeepsStateWellFormed(last, checks[..n], hash, inStock);
      CheckKeepsStateWellFormed(RunCycle(last, checks[..n], hash, inStock).hashes, checks[n], hash, inStock);
    }
  }

  /** One check of a writable URL with a newline-free digest keeps the state writable. */
  lemma CheckKeepsStateWellFormed(m: Hashes, c: Check, hash: string -> Digest, inStock: string -> bool)
    requires WellFormed(m) && Writable(c.url)
    requires forall s :: '\n' !in hash(s)
    ensures WellFormed(CheckUrl(m, c, hash, inStock).hashes)
  {
    var r := CheckUrl(m, c, hash, inStock).hashes;
    forall u | u in r
      ensures ' ' !in u && '\n' !in u && '\n' !in r[u]
    {
      if u == c.url && c.outcome.Page? {
        assert r[u] == hash(c.outcome.html) || r[u] == m[u];
      }
    }
  }

  /**
   * What one run saves, the next run loads: the state file carries the cycle's
   * result across a restart unchanged.
   */
  lemma StateSurvivesRestart(last: Hashes, checks: seq<Check>, hash: string -> Digest, inStock: string -> bool, order: seq<Url>)
    requires WellFormed(last)
    requires forall i :: 0 <= i < |checks| ==> Writable(checks[i].url)
    requires forall s :: '\n' !in hash(s)
    requires Enumerates(order, RunCycle(last, checks, hash, inStock).hashes)
    ensures var m := RunCycle(last, checks, hash, inStock).hashes;
            Load(Render(m, order)) == m
  {
    CycleKeepsStateWellFormed(last, checks, hash, inStock);
    SaveThenLoad(RunCycle(last, checks, hash, inStock).hashes, order);
  }

  /**
   * A consequence of keeping the old digest while a product is sold out: a
   * product that sells out and comes back with a byte-identical page raises no
   * second alert.
   */
  lemma IdenticalRestockIsSilent(m: Hashes, u: Url, page: string, soldOut: string, hash: string -> Digest, inStock: string -> bool)
    requires u !in m && inStock(page) && !inStock(soldOut)
    ensures var first := CheckUrl(m, Check(u, Page(page)), hash, inStock);
            var second := CheckUrl(first.hashes, Check(u, Page(soldOut)), hash, inStock);
            var third := CheckUrl(second.hashes, Check(u, Page(page)), hash, inStock);
            first.notified == [u] && second.notified == [] && third.notified == []
  {
  }

  /** The watched URLs are distinct, so the per-URL lemmas apply to the real watch list. */
  lemma ProductUrlsAreUsable(checks: seq<Check>)
    requires |checks| == |ProductUrls|
    requires forall i :: 0 <= i < |checks| ==> checks[i].url == ProductUrls[i]
    ensures Distinct(checks)
  {
  }
}
