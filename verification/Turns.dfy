/** Taking turns: who is served first and how long anybody waits. */
module Turns {
  import opened Words
  import opened Options
  import opened Rings

  // ---------- whose turn it is ----------

  /** The `i`-th track in turn, starting from `next`. */
  function Turn(next: nat, i: nat, n: nat): (k: nat)
    requires next < n && i < n
    ensures k < n
  {
    if next + i < n then next + i else next + i - n
  }

  lemma TurnIsModulo(next: nat, i: nat, n: nat)
    requires next < n && i < n
    ensures (next + i) % n == Turn(next, i, n)
  {
    RemainderUnique(next + i, n, if next + i < n then 0 else 1, Turn(next, i, n));
  }

  /** How many turns track `k` has to wait. */
  function Wait(k: nat, next: nat, n: nat): (d: nat)
    requires k < n && next < n
    ensures d < n && Turn(next, d, n) == k
  {
    if k >= next then k - next else k - next + n
  }

  /** `served` is the first ready track in turn from `next`, or nobody is ready. */
  ghost predicate Picks(next: nat, ready: seq<bool>, served: Option<nat>)
    requires next < |ready|
  {
    match served
    case None => forall k :: 0 <= k < |ready| ==> !ready[k]
    case Some(k) =>
      && k < |ready| && ready[k]
      && forall j :: 0 <= j < Wait(k, next, |ready|) ==> !ready[Turn(next, j, |ready|)]
  }

  lemma ServedIsFirst(next: nat, ready: seq<bool>, served: nat, k: nat)
    requires next < |ready| && Picks(next, ready, Some(served)) && k < |ready| && ready[k]
    ensures Wait(served, next, |ready|) <= Wait(k, next, |ready|)
  {
    assert ready[Turn(next, Wait(k, next, |ready|), |ready|)];
  }

  /** A ready track that is not served moves strictly closer to its turn. */
  lemma Closer(next: nat, ready: seq<bool>, served: nat, k: nat)
    requires next < |ready| && Picks(next, ready, Some(served)) && k < |ready| && ready[k] && k != served
    ensures Wait(k, Next(served, |ready|), |ready|) < Wait(k, next, |ready|)
  {
    ServedIsFirst(next, ready, served, k);
  }

  // ---------- one visit at a time ----------

  /** Where a scan stands: it began at `next` and comes to the `at`-th track in turn. */
  datatype Cursor = Cursor(next: nat, at: nat)

  ghost predicate InScan(c: Cursor, n: nat) { c.next < n && c.at < n }

  /** After a visit: a hit ends the scan and passes the turn on, so does a miss at the last track, and any
      other miss moves on to the next track. */
  function Moved(c: Cursor, n: nat, hit: bool): (c': Cursor)
    requires InScan(c, n)
    ensures InScan(c', n)
  {
    if hit then Cursor(Next(Turn(c.next, c.at, n), n), 0)
    else if c.at + 1 < n then Cursor(c.next, c.at + 1)
    else Cursor(c.next, 0)
  }

  /** The visit ends the scan. */
  predicate Ends(c: Cursor, n: nat, hit: bool) { hit || c.at + 1 >= n }

  /** The scan has not passed track `k`. */
  predicate Ahead(c: Cursor, n: nat, k: nat)
    requires InScan(c, n) && k < n
  {
    c.at <= Wait(k, c.next, n)
  }

  /** A bound on the scans that can end before one visits track `k`: its wait, and the present scan if that
      has passed it. */
  function ScansBefore(c: Cursor, n: nat, k: nat): (m: nat)
    requires InScan(c, n) && k < n
    ensures m <= n && (c.at == 0 ==> m < n)
  {
    if Ahead(c, n, k) then Wait(k, c.next, n) else n
  }

  /** A visit to another track leaves track `k` ahead, or leaves it as it was, and every scan that ends brings
      it closer. */
  lemma VisitBringsCloser(c: Cursor, n: nat, k: nat, hit: bool)
    requires InScan(c, n) && k < n && Turn(c.next, c.at, n) != k
    ensures ScansBefore(Moved(c, n, hit), n, k) + (if Ends(c, n, hit) then 1 else 0) <= ScansBefore(c, n, k)
  {
  }

  /** `p` full cycles of `n` scans. */
  function Cycles(p: nat, n: nat): nat { if p == 0 then 0 else Cycles(p - 1, n) + n }

  // ---------- one scan at a time ----------

  /** One successful round: who was seen ready, whose turn it was, who was served. */
  datatype Round = Round(next: nat, ready: seq<bool>, served: nat)

  ghost predicate Rounds(n: nat, rounds: seq<Round>) {
    && (forall j :: 0 <= j < |rounds| ==>
          rounds[j].next < |rounds[j].ready| == n && Picks(rounds[j].next, rounds[j].ready, Some(rounds[j].served)))
    && (forall j :: 0 < j < |rounds| ==> rounds[j].next == Next(rounds[j - 1].served, n))
  }

  lemma {:induction false} WaitShrinks(n: nat, rounds: seq<Round>, k: nat, m: nat)
    requires Rounds(n, rounds) && k < n && m < |rounds|
    requires forall j :: 0 <= j <= m ==> rounds[j].ready[k] && rounds[j].served != k
    ensures Wait(k, Next(rounds[m].served, n), n) + m + 1 <= Wait(k, rounds[0].next, n)
  {
    if m > 0 {
      WaitShrinks(n, rounds, k, m - 1);
    }
    Closer(rounds[m].next, rounds[m].ready, rounds[m].served, k);
  }

  /** A ready track stays ready from round to round until one of the indices in `mine` is served. */
  ghost predicate Persists(rounds: seq<Round>, k: nat, mine: set<nat>)
    requires forall j :: 0 <= j < |rounds| ==> k < |rounds[j].ready|
  {
    forall j :: 0 < j < |rounds| && rounds[j - 1].ready[k] && rounds[j - 1].served !in mine ==> rounds[j].ready[k]
  }

  lemma {:induction false} ReadyUntilServed(n: nat, rounds: seq<Round>, k: nat, mine: set<nat>, m: nat)
    requires Rounds(n, rounds) && k < n && m < |rounds| && rounds[0].ready[k] && Persists(rounds, k, mine)
    requires forall j :: 0 <= j < m ==> rounds[j].served !in mine
    ensures rounds[m].ready[k]
  {
    if m > 0 {
      ReadyUntilServed(n, rounds, k, mine, m - 1);
    }
  }

  /** Starvation freedom: a track that is ready once, and stays so until it is served, is served within as
      many rounds as there are tracks.  `mine` holds the indices it is bound to. */
  lemma ServedWithinOneCycle(n: nat, rounds: seq<Round>, k: nat, mine: set<nat>)
    requires Rounds(n, rounds) && k < n <= |rounds| && k in mine
    requires rounds[0].ready[k] && Persists(rounds, k, mine)
    ensures exists j :: 0 <= j < n && rounds[j].served in mine
  {
    if forall j :: 0 <= j < n ==> rounds[j].served !in mine {
      forall j | 0 <= j <= n - 1 ensures rounds[j].ready[k] && rounds[j].served != k {
        ReadyUntilServed(n, rounds, k, mine, j);
      }
      WaitShrinks(n, rounds, k, n - 1);
    }
  }

  /** When every track is always ready, each is served exactly once in a cycle, in turn. */
  lemma {:induction false} EvenWhenAllReady(n: nat, rounds: seq<Round>, m: nat)
    requires Rounds(n, rounds) && m < |rounds| && m < n
    requires forall j, k :: 0 <= j < |rounds| && 0 <= k < n ==> rounds[j].ready[k]
    ensures rounds[m].served == Turn(rounds[0].next, m, n)
  {
    var r := rounds[m];
    if m > 0 {
      EvenWhenAllReady(n, rounds, m - 1);
    }
    ServedIsFirst(r.next, r.ready, r.served, r.next);
  }
}
