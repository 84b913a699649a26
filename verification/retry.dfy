/**
 The retry/backoff loops of the two scripts, as one policy-driven state machine.

 `fetch_og_image_from_url` (both scripts) and the picture download in
 `create_cover_slide` (PowerPoint script) all loop over attempt numbers,
 stop on success, and sleep between failed attempts.  The network is replaced
 by a script of attempt outcomes; an attempt past the end of the script fails.
 `time.sleep` is replaced by recording the requested delay in `sleeps`.
 */
module Retry {
  import opened Optional
  import opened Text
  import Sections

  /** What one attempt produced: an exception escaped the request, or a
      response arrived and the og:image search over its body gave `found`. */
  datatype Outcome<T> = Failed | Answered(found: Option<T>)

  /** How long to sleep after a failed attempt number k. */
  datatype Backoff =
    | Doubling(base: int)         // retry_delay * (2 ** attempt)
    | Table(delays: seq<int>)     // delays[attempt]

  /** What to do with a response that carries no og:image tag. */
  datatype OnMissing = GiveUp | TryAgain

  datatype Policy = Policy(maxRetries: int, backoff: Backoff, onMissing: OnMissing)

  /** A table of delays must cover every attempt that can be followed by a sleep. */
  predicate ValidPolicy(p: Policy) {
    p.backoff.Table? ==> p.maxRetries - 1 <= |p.backoff.delays|
  }

  /** The result of the loop, how many attempts it made, and its sleeps in order. */
  datatype Run<T> = Run(result: Option<T>, attempts: nat, sleeps: seq<int>)

  function Pow2(n: nat): (r: nat)
    ensures r >= 1
  {
    if n == 0 then 1 else 2 * Pow2(n - 1)
  }

  function Delay(b: Backoff, attempt: nat): int
    requires b.Table? ==> attempt < |b.delays|
  {
    match b
    case Doubling(base) => base * Pow2(attempt)
    case Table(d) => d[attempt]
  }

  function OutcomeAt<T>(script: seq<Outcome<T>>, k: nat): Outcome<T> {
    if k < |script| then script[k] else Failed
  }

  /** An outcome that ends the loop: a found image, or a page without one
      under a policy that gives up on such pages. */
  predicate Stops<T>(p: Policy, o: Outcome<T>) {
    o.Answered? && (o.found.Some? || p.onMissing == GiveUp)
  }

  /** The sleeps the loop owes for attempts lo .. hi-1 taken one by one:
      a failed attempt sleeps unless it is the last one allowed. */
  function Pauses<T>(p: Policy, script: seq<Outcome<T>>, lo: nat, hi: nat): seq<int>
    requires ValidPolicy(p) && lo <= hi
    decreases hi - lo
  {
    if lo == hi then []
    else
      (if OutcomeAt(script, lo).Failed? && lo < p.maxRetries - 1 then [Delay(p.backoff, lo)] else [])
      + Pauses(p, script, lo + 1, hi)
  }

  /** The loop from attempt k on. */
  function RunFrom<T>(p: Policy, script: seq<Outcome<T>>, k: nat): (r: Run<T>)
    requires ValidPolicy(p)
    ensures k >= p.maxRetries ==> r == Run(None, 0, [])
    ensures k < p.maxRetries ==> 1 <= r.attempts <= p.maxRetries - k
    ensures r.sleeps == Pauses(p, script, k, k + r.attempts)
    decreases if k < p.maxRetries then p.maxRetries - k else 0
  {
    if k >= p.maxRetries then Run(None, 0, [])
    else
      var o := OutcomeAt(script, k);
      if Stops(p, o) then Run(o.found, 1, Pauses(p, script, k, k + 1))
      else
        var rest := RunFrom(p, script, k + 1);
        PausesStep(p, script, k, k + 1 + rest.attempts);
        Run(rest.result, rest.attempts + 1, Pauses(p, script, k, k + 1) + rest.sleeps)
  }

  /** The loop runs until the first stopping outcome: every attempt before the
      last went on, and the last one either stopped the loop with its answer
      or was the final attempt allowed, leaving None. */
  lemma {:induction false} RunFromStops<T>(p: Policy, script: seq<Outcome<T>>, k: nat)
    requires ValidPolicy(p)
    ensures var r := RunFrom(p, script, k);
      forall j :: k <= j < k + r.attempts - 1 ==> !Stops(p, OutcomeAt(script, j))
    ensures var r := RunFrom(p, script, k);
      r.attempts > 0 && Stops(p, OutcomeAt(script, k + r.attempts - 1)) ==>
        r.result == OutcomeAt(script, k + r.attempts - 1).found
    ensures var r := RunFrom(p, script, k);
      r.attempts > 0 && !Stops(p, OutcomeAt(script, k + r.attempts - 1)) ==>
        k + r.attempts == p.maxRetries && r.result == None
    decreases if k < p.maxRetries then p.maxRetries - k else 0
  {
    if k < p.maxRetries && !Stops(p, OutcomeAt(script, k)) {
      RunFromStops(p, script, k + 1);
    }
  }

  /** The pauses of a range are those of its first attempt followed by the rest. */
  lemma PausesStep<T>(p: Policy, script: seq<Outcome<T>>, lo: nat, hi: nat)
    requires ValidPolicy(p) && lo < hi
    ensures Pauses(p, script, lo, hi) == Pauses(p, script, lo, lo + 1) + Pauses(p, script, lo + 1, hi)
  {
    PausesOne(p, script, lo);
  }

  function Retry<T>(p: Policy, script: seq<Outcome<T>>): Run<T>
    requires ValidPolicy(p)
  {
    RunFrom(p, script, 0)
  }

  /** Attempts without a stop sleep exactly the delays of the failed ones that
      were not the last allowed attempt. */
  lemma AllFailFrom<T>(p: Policy, script: seq<Outcome<T>>, k: nat)
    requires ValidPolicy(p) && k < p.maxRetries
    requires forall j :: k <= j < p.maxRetries ==> OutcomeAt(script, j).Failed?
    ensures RunFrom(p, script, k).result == None
    ensures RunFrom(p, script, k).attempts == p.maxRetries - k
    ensures |RunFrom(p, script, k).sleeps| == p.maxRetries - 1 - k
    ensures forall i :: 0 <= i < p.maxRetries - 1 - k ==>
              RunFrom(p, script, k).sleeps[i] == Delay(p.backoff, k + i)
  {
    AllFailRun(p, script, k);
    PausesAllFail(p, script, k);
  }

  /** Failing to the end uses up every remaining attempt and finds nothing. */
  lemma {:induction false} AllFailRun<T>(p: Policy, script: seq<Outcome<T>>, k: nat)
    requires ValidPolicy(p) && k < p.maxRetries
    requires forall j :: k <= j < p.maxRetries ==> OutcomeAt(script, j).Failed?
    ensures RunFrom(p, script, k).result == None
    ensures RunFrom(p, script, k).attempts == p.maxRetries - k
    decreases p.maxRetries - k
  {
    RunFromFails(p, script, k);
    if k + 1 < p.maxRetries {
      AllFailRun(p, script, k + 1);
    }
  }

  /** The pauses of failed attempts k .. maxRetries-1: one delay per attempt
      but the last. */
  lemma {:induction false} PausesAllFail<T>(p: Policy, script: seq<Outcome<T>>, k: nat)
    requires ValidPolicy(p) && k < p.maxRetries
    requires forall j :: k <= j < p.maxRetries ==> OutcomeAt(script, j).Failed?
    ensures |Pauses(p, script, k, p.maxRetries)| == p.maxRetries - 1 - k
    ensures forall i :: 0 <= i < p.maxRetries - 1 - k ==>
              Pauses(p, script, k, p.maxRetries)[i] == Delay(p.backoff, k + i)
    decreases p.maxRetries - k
  {
    var s := Pauses(p, script, k, p.maxRetries);
    if k + 1 < p.maxRetries {
      PausesAllFail(p, script, k + 1);
      var rest := Pauses(p, script, k + 1, p.maxRetries);
      assert s == [Delay(p.backoff, k)] + rest;
      forall i | 0 <= i < p.maxRetries - 1 - k
        ensures s[i] == Delay(p.backoff, k + i)
      {
        if i > 0 {
          var j := i - 1;
          assert s[i] == rest[j];
          assert rest[j] == Delay(p.backoff, k + 1 + j);
          assert k + 1 + j == k + i;
        }
      }
    } else {
      PausesOne(p, script, k);
    }
  }

  /** The pauses owed for the single attempt k. */
  lemma PausesOne<T>(p: Policy, script: seq<Outcome<T>>, k: nat)
    requires ValidPolicy(p)
    ensures Pauses(p, script, k, k + 1) ==
              if OutcomeAt(script, k).Failed? && k < p.maxRetries - 1 then [Delay(p.backoff, k)] else []
  {
    var head := if OutcomeAt(script, k).Failed? && k < p.maxRetries - 1 then [Delay(p.backoff, k)] else [];
    assert Pauses(p, script, k, k + 1) == head + [];
    assert head + [] == head;
  }

  /** A failed attempt that is not the last allowed one hands over to the next. */
  lemma RunFromFails<T>(p: Policy, script: seq<Outcome<T>>, k: nat)
    requires ValidPolicy(p) && k < p.maxRetries && OutcomeAt(script, k).Failed?
    ensures RunFrom(p, script, k) ==
              Run(RunFrom(p, script, k + 1).result, RunFrom(p, script, k + 1).attempts + 1,
                  Pauses(p, script, k, k + 1) + RunFrom(p, script, k + 1).sleeps)
  {
    assert !Stops(p, OutcomeAt(script, k));
  }

  /** The last attempt never sleeps, so there is at most one sleep between
      consecutive attempts and none after the final one. */
  lemma NoSleepAfterLast<T>(p: Policy, script: seq<Outcome<T>>)
    requires ValidPolicy(p)
    ensures Retry(p, script).attempts == 0 ==> Retry(p, script).sleeps == []
    ensures Retry(p, script).attempts > 0 ==> |Retry(p, script).sleeps| <= Retry(p, script).attempts - 1
  {
    var r := Retry(p, script);
    RunFromStops(p, script, 0);
    if r.attempts > 0 {
      var last := r.attempts - 1;
      assert !(OutcomeAt(script, last).Failed? && last < p.maxRetries - 1);
      PausesShort(p, script, 0, r.attempts);
    }
  }

  lemma {:induction false} PausesShort<T>(p: Policy, script: seq<Outcome<T>>, lo: nat, hi: nat)
    requires ValidPolicy(p) && lo < hi
    requires !(OutcomeAt(script, hi - 1).Failed? && hi - 1 < p.maxRetries - 1)
    ensures |Pauses(p, script, lo, hi)| <= hi - lo - 1
    decreases hi - lo
  {
    if lo + 1 < hi {
      PausesShort(p, script, lo + 1, hi);
    }
  }

  /** The first attempt whose page carries an og:image decides the result,
      provided no earlier attempt ended the loop. */
  lemma FirstFindWins<T>(p: Policy, script: seq<Outcome<T>>, k: nat, v: T)
    requires ValidPolicy(p) && k < p.maxRetries
    requires OutcomeAt(script, k) == Answered(Some(v))
    requires forall j :: 0 <= j < k ==> !Stops(p, OutcomeAt(script, j))
    ensures Retry(p, script).result == Some(v)
    ensures Retry(p, script).attempts == k + 1
  {
    var r := Retry(p, script);
    RunFromStops(p, script, 0);
    var last: nat := r.attempts - 1;
    assert last < k ==> !Stops(p, OutcomeAt(script, last));
  }

  // ---------------------------------------------------------------------
  // scripts/markdown_to_ppt.py: fetch_og_image_from_url(url, max_retries, retry_delay)

  /** Doubling backoff; a page without og:image returns None at once. */
  function PptPolicy(maxRetries: int, retryDelay: int): (p: Policy)
    ensures ValidPolicy(p)
  {
    Policy(maxRetries, Doubling(retryDelay), GiveUp)
  }

  /** Defaults used by `parse_markdown_file`: three attempts, base delay 1. */
  function FetchPpt(script: seq<Outcome<string>>): Run<string> {
    Retry(PptPolicy(3, 1), script)
  }

  /** With the defaults, three failures sleep 1 then 2 and give up. */
  lemma PptThreeFailures(script: seq<Outcome<string>>)
    requires forall j :: 0 <= j < 3 ==> OutcomeAt(script, j).Failed?
    ensures FetchPpt(script) == Run(None, 3, [1, 2])
  {
    AllFailFrom(PptPolicy(3, 1), script, 0);
    var r := FetchPpt(script);
    assert r.sleeps == [Delay(Doubling(1), 0), Delay(Doubling(1), 1)];
  }

  /** After n failures the PowerPoint fetcher has slept retry_delay * 2^k after
      each failed attempt k except the last. */
  lemma PptBackoffDoubles(maxRetries: nat, retryDelay: int, script: seq<Outcome<string>>)
    requires maxRetries >= 1
    requires forall j :: 0 <= j < maxRetries ==> OutcomeAt(script, j).Failed?
    ensures Retry(PptPolicy(maxRetries, retryDelay), script).result == None
    ensures Retry(PptPolicy(maxRetries, retryDelay), script).attempts == maxRetries
    ensures |Retry(PptPolicy(maxRetries, retryDelay), script).sleeps| == maxRetries - 1
    ensures forall k :: 0 <= k < maxRetries - 1 ==>
              Retry(PptPolicy(maxRetries, retryDelay), script).sleeps[k] == retryDelay * Pow2(k)
  {
    var p := PptPolicy(maxRetries, retryDelay);
    AllFailFrom(p, script, 0);
    forall k | 0 <= k < maxRetries - 1
      ensures Retry(p, script).sleeps[k] == retryDelay * Pow2(k)
    {
      assert Retry(p, script).sleeps[k] == Delay(p.backoff, k);
    }
  }

  /** A response without og:image ends the PowerPoint fetcher with None, no retry. */
  lemma PptMissingGivesUp(maxRetries: int, retryDelay: int, script: seq<Outcome<string>>, k: nat)
    requires k < maxRetries
    requires forall j :: 0 <= j < k ==> OutcomeAt(script, j).Failed?
    requires OutcomeAt(script, k) == Answered(None)
    ensures Retry(PptPolicy(maxRetries, retryDelay), script).result == None
    ensures Retry(PptPolicy(maxRetries, retryDelay), script).attempts == k + 1
  {
    var p := PptPolicy(maxRetries, retryDelay);
    var r := Retry(p, script);
    RunFromStops(p, script, 0);
    var last: nat := r.attempts - 1;
    assert last < k ==> !Stops(p, OutcomeAt(script, last));
  }

  // ---------------------------------------------------------------------
  // scripts/markdown_to_pandoc.py: fetch_og_image_from_url(url)

  /** Three attempts, delays [1, 2, 4]; a page without og:image moves on. */
  const PandocPolicy := Policy(3, Table([1, 2, 4]), TryAgain)

  function FetchPandoc(script: seq<Outcome<string>>): (r: Run<string>)
    ensures r.attempts <= 3
  {
    Retry(PandocPolicy, script)
  }

  /** Only the delays 1 and 2 are ever slept; the table's 4 is never used. */
  lemma PandocSleeps(script: seq<Outcome<string>>)
    ensures |FetchPandoc(script).sleeps| <= 2
    ensures forall i :: 0 <= i < |FetchPandoc(script).sleeps| ==>
              FetchPandoc(script).sleeps[i] == 1 || FetchPandoc(script).sleeps[i] == 2
  {
    NoSleepAfterLast(PandocPolicy, script);
    var r := FetchPandoc(script);
    PandocPausesSmall(script, 0, r.attempts);
  }

  lemma {:induction false} PandocPausesSmall(script: seq<Outcome<string>>, lo: nat, hi: nat)
    requires lo <= hi
    ensures forall i :: 0 <= i < |Pauses(PandocPolicy, script, lo, hi)| ==>
              Pauses(PandocPolicy, script, lo, hi)[i] in {1, 2}
    decreases hi - lo
  {
    if lo < hi {
      PandocPausesSmall(script, lo + 1, hi);
    }
  }

  /** Pages without og:image are retried immediately: no sleep, three attempts. */
  lemma PandocMissingTriesAgain(script: seq<Outcome<string>>)
    requires forall j :: 0 <= j < 3 ==> OutcomeAt(script, j) == Answered(None)
    ensures FetchPandoc(script) == Run(None, 3, [])
  {
    assert OutcomeAt(script, 0) == Answered(None);
    assert OutcomeAt(script, 1) == Answered(None);
    assert OutcomeAt(script, 2) == Answered(None);
  }

  /** Three failures with the table [1, 2, 4] sleep 1 then 2. */
  lemma PandocThreeFailures(script: seq<Outcome<string>>)
    requires forall j :: 0 <= j < 3 ==> OutcomeAt(script, j).Failed?
    ensures FetchPandoc(script) == Run(None, 3, [1, 2])
  {
    AllFailFrom(PandocPolicy, script, 0);
    var r := FetchPandoc(script);
    assert r.sleeps == [Delay(Table([1, 2, 4]), 0), Delay(Table([1, 2, 4]), 1)];
  }

  // ---------------------------------------------------------------------
  // scripts/markdown_to_ppt.py: the picture download of create_cover_slide

  /** One attempt per entry of `downloads`: true when the picture was fetched
      and placed, false when the request raised. */
  function DownloadOutcomes(downloads: seq<bool>): (script: seq<Outcome<()>>)
    ensures |script| == |downloads|
    ensures forall k :: 0 <= k < |downloads| ==>
              script[k] == (if downloads[k] then Answered(Some(())) else Failed)
  {
    if downloads == [] then []
    else [if downloads[0] then Answered(Some(())) else Failed] + DownloadOutcomes(downloads[1..])
  }

  /** The download loop runs only for a URL that is shown (non-empty and not
      the changelog placeholder); `image_added` is whether it produced a result. */
  function CoverDownload(imageUrl: string, maxRetries: int, retryDelay: int, downloads: seq<bool>): (r: Run<()>)
    ensures !Sections.ShowsImage(imageUrl) ==> r == Run(None, 0, [])
    ensures Sections.ShowsImage(imageUrl) ==> r == Retry(PptPolicy(maxRetries, retryDelay), DownloadOutcomes(downloads))
  {
    if Sections.ShowsImage(imageUrl) then Retry(PptPolicy(maxRetries, retryDelay), DownloadOutcomes(downloads))
    else Run(None, 0, [])
  }

  /** The picture is added exactly when the URL is shown and one of the first
      `max_retries` downloads succeeds. */
  lemma CoverAddedIff(imageUrl: string, maxRetries: int, retryDelay: int, downloads: seq<bool>)
    ensures CoverDownload(imageUrl, maxRetries, retryDelay, downloads).result.Some? <==>
              Sections.ShowsImage(imageUrl) && exists k :: 0 <= k < maxRetries && k < |downloads| && downloads[k]
  {
    if Sections.ShowsImage(imageUrl) {
      var p := PptPolicy(maxRetries, retryDelay);
      var script := DownloadOutcomes(downloads);
      var r := Retry(p, script);
      RunFromStops(p, script, 0);
      if r.result.Some? {
        var last: nat := r.attempts - 1;
        assert Stops(p, OutcomeAt(script, last));
        assert last < maxRetries && last < |downloads| && downloads[last];
      }
      if exists k :: 0 <= k < maxRetries && k < |downloads| && downloads[k] {
        var k := FirstSuccess(downloads, maxRetries);
        CoverFirstSuccess(imageUrl, maxRetries, retryDelay, downloads, k);
      }
    }
  }

  /** The first successful download ends the loop, after k + 1 attempts. */
  lemma CoverFirstSuccess(imageUrl: string, maxRetries: int, retryDelay: int, downloads: seq<bool>, k: nat)
    requires Sections.ShowsImage(imageUrl)
    requires k < maxRetries && k < |downloads| && downloads[k]
    requires forall j :: 0 <= j < k ==> !downloads[j]
    ensures CoverDownload(imageUrl, maxRetries, retryDelay, downloads).result.Some?
    ensures CoverDownload(imageUrl, maxRetries, retryDelay, downloads).attempts == k + 1
  {
    var p := PptPolicy(maxRetries, retryDelay);
    var script := DownloadOutcomes(downloads);
    assert forall j :: 0 <= j < k ==> !Stops(p, OutcomeAt(script, j)) by {
      forall j | 0 <= j < k ensures !Stops(p, OutcomeAt(script, j)) {
        assert !downloads[j];
      }
    }
    FirstFindWins(p, script, k, ());
  }

  /** The first successful download among the first n. */
  function FirstSuccess(downloads: seq<bool>, n: int): (k: nat)
    requires exists k :: 0 <= k < n && k < |downloads| && downloads[k]
    ensures k < n && k < |downloads| && downloads[k]
    ensures forall j :: 0 <= j < k ==> !downloads[j]
  {
    var p := (j: nat) => j < |downloads| && downloads[j];
    var k :| 0 <= k < n && k < |downloads| && downloads[k];
    var f := FirstWhere(0, k + 1, p);
    assert p(k);
    assert forall j :: 0 <= j < f ==> !downloads[j] by {
      forall j | 0 <= j < f ensures !downloads[j] { assert !p(j); }
    }
    f
  }
}
