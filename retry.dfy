/** The two bounded polling loops over `WiFi.status()`. The link's answers
    are an oracle: `Up(link, j)` is what the j-th status read of the run
    reports; reads past the end of `link` report the link down. */
module Retry {

  predicate Up(link: seq<bool>, j: nat)
  {
    j < |link| && link[j]
  }

  /** `connectToWiFi` gives up once `++attempt > 10`: after this many failed reads. */
  const CONNECT_MAX_ATTEMPT := 10
  /** `updateNTP` waits while `attempts < 5`. */
  const SYNC_MAX_ATTEMPTS := 5
  /** Both loops wait one second after each failed read. */
  const RETRY_DELAY_MS := 1000

  /** How many reads, starting at `start`, report the link down before one
      reports it up, counting at most `cap` of them. */
  function FailedRun(link: seq<bool>, start: nat, cap: nat): (k: nat)
    ensures k <= cap
    ensures forall j :: start <= j < start + k ==> !Up(link, j)
    ensures k < cap ==> Up(link, start + k)
    decreases cap
  {
    if cap == 0 || Up(link, start) then 0 else 1 + FailedRun(link, start + 1, cap - 1)
  }

  /** The properties in FailedRun's contract determine its value. */
  lemma {:induction false} FailedRunIs(link: seq<bool>, start: nat, cap: nat, k: nat)
    requires k <= cap
    requires forall j :: start <= j < start + k ==> !Up(link, j)
    requires k < cap ==> Up(link, start + k)
    ensures FailedRun(link, start, cap) == k
    decreases cap
  {
    if k > 0 {
      FailedRunIs(link, start + 1, cap - 1, k - 1);
    }
  }

  /** Failed reads in `connectToWiFi`, each followed by a one-second wait:
      the loop leaves after the eleventh. */
  function ConnectFailures(link: seq<bool>, start: nat): (k: nat)
    ensures k <= CONNECT_MAX_ATTEMPT + 1
    ensures forall j :: start <= j < start + k ==> !Up(link, j)
    ensures k <= CONNECT_MAX_ATTEMPT ==> Up(link, start + k)
  {
    FailedRun(link, start, CONNECT_MAX_ATTEMPT + 1)
  }

  /** Status reads made by `connectToWiFi`: it stops at the first read that
      reports the link up, and makes at most eleven. */
  function ConnectReads(link: seq<bool>, start: nat): (n: nat)
    ensures 1 <= n <= CONNECT_MAX_ATTEMPT + 1
    ensures forall j :: start <= j < start + n - 1 ==> !Up(link, j)
    ensures n < CONNECT_MAX_ATTEMPT + 1 ==> Up(link, start + n - 1)
    ensures ConnectFailures(link, start) == if Up(link, start + n - 1) then n - 1 else n
  {
    var k := ConnectFailures(link, start);
    if k <= CONNECT_MAX_ATTEMPT then k + 1 else k
  }

  /** Waits made by the polling loop of `updateNTP`: one per failed read,
      never more than five; the loop then makes one read more than it
      waited (the one that ended it). */
  function SyncWaits(link: seq<bool>, start: nat): (k: nat)
    ensures k <= SYNC_MAX_ATTEMPTS
    ensures forall j :: start <= j < start + k ==> !Up(link, j)
    ensures k < SYNC_MAX_ATTEMPTS ==> Up(link, start + k)
  {
    FailedRun(link, start, SYNC_MAX_ATTEMPTS)
  }
}
