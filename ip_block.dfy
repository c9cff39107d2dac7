/**
 The IP failure-counter middleware: a table of temporary blocks (client
 address to expiry time) and a table of failure counts (client address to
 failures since the last reset, absent meaning 0). Each request from a
 blocked client is refused with 403 until the block expires; otherwise the
 request goes downstream, and a reply with status 400 or above counts as a
 failure, which blocks the client once the count reaches the limit.

 The clock is read twice per request: once on entry and once after the
 downstream reply, when a block is set. Both readings, and the downstream
 reply's status, are inputs. Times are whole seconds.
 */
module IpBlock {

  const DefaultMaxFailures := 10
  const DefaultBlockDuration := 3600
  const StatusForbidden := 403
  const FirstErrorStatus := 400

  /** Both tables of the middleware. */
  datatype BlockTable = BlockTable(blockedIps: map<string, int>, failureCounts: map<string, int>)

  /** One request as the middleware sees it: the client address, the clock
      on entry, the status the downstream handler would reply with, and the
      clock once that reply has arrived. */
  datatype Request = Request(ip: string, now: int, downstream: int, doneAt: int)

  /** The tables after a request, the status returned to the client and
      whether the downstream handler was called. */
  datatype Step = Step(table: BlockTable, status: int, forwarded: bool)

  /** The `defaultdict(int)` read: an unseen client has 0 failures. */
  function Count(counts: map<string, int>, ip: string): int {
    if ip in counts then counts[ip] else 0
  }

  /** The client has a block whose expiry is still ahead of `now`. */
  predicate ActiveBlock(t: BlockTable, ip: string, now: int) {
    ip in t.blockedIps && now < t.blockedIps[ip]
  }

  /** One `dispatch`: refuse an actively blocked client; drop an expired block
      and reset the count; forward; count a failure and block at the limit. */
  function Transition(t: BlockTable, maxFailures: int, blockDuration: int, r: Request): (s: Step)
    ensures s.forwarded <==> !ActiveBlock(t, r.ip, r.now)
    ensures s.status == (if s.forwarded then r.downstream else StatusForbidden)
  {
    if ActiveBlock(t, r.ip, r.now) then Step(t, StatusForbidden, false)
    else
      var t1 := if r.ip in t.blockedIps
        then BlockTable(t.blockedIps - {r.ip}, t.failureCounts[r.ip := 0])
        else t;
      if r.downstream < FirstErrorStatus then Step(t1, r.downstream, true)
      else
        var n := Count(t1.failureCounts, r.ip) + 1;
        var counts := t1.failureCounts[r.ip := n];
        var blocked := if n >= maxFailures
          then t1.blockedIps[r.ip := r.doneAt + blockDuration]
          else t1.blockedIps;
        Step(BlockTable(blocked, counts), r.downstream, true)
  }

  /** The invariant of a middleware whose limit is at least 1: every count
      lies between 0 and the limit, and a client is blocked exactly when its
      count equals the limit. */
  ghost predicate Consistent(t: BlockTable, maxFailures: int) {
    && (forall ip :: ip in t.failureCounts ==> 0 <= t.failureCounts[ip] <= maxFailures)
    && (forall ip :: ip in t.blockedIps <==> Count(t.failureCounts, ip) == maxFailures)
  }

  /** An active block gives 403 without calling downstream, and changes nothing. */
  lemma ActiveBlockRefuses(t: BlockTable, maxFailures: int, blockDuration: int, r: Request)
    requires ActiveBlock(t, r.ip, r.now)
    ensures Transition(t, maxFailures, blockDuration, r) == Step(t, StatusForbidden, false)
  {
  }

  /** Without an active block the request goes downstream and its status is
      returned. The count after an expired block starts again from 0; a
      failure adds exactly one, and a success neither adds nor resets. */
  lemma ForwardedAndCounted(t: BlockTable, maxFailures: int, blockDuration: int, r: Request)
    requires !ActiveBlock(t, r.ip, r.now)
    ensures var s := Transition(t, maxFailures, blockDuration, r);
      && s.forwarded && s.status == r.downstream
      && var before := if r.ip in t.blockedIps then 0 else Count(t.failureCounts, r.ip);
        Count(s.table.failureCounts, r.ip) == before + (if r.downstream >= FirstErrorStatus then 1 else 0)
  {
  }

  /** An expired block is deleted; only a new failure that reaches the limit
      blocks the client again. */
  lemma ExpiredBlockCleared(t: BlockTable, maxFailures: int, blockDuration: int, r: Request)
    requires r.ip in t.blockedIps && t.blockedIps[r.ip] <= r.now
    ensures var s := Transition(t, maxFailures, blockDuration, r);
      && Count(s.table.failureCounts, r.ip) == (if r.downstream >= FirstErrorStatus then 1 else 0)
      && (r.ip in s.table.blockedIps <==> r.downstream >= FirstErrorStatus && 1 >= maxFailures)
  {
  }

  /** A forwarded request leaves the client blocked exactly when it failed
      and its count reached the limit, and the block then lasts from the
      second clock reading for the block duration. */
  lemma BlockAtLimit(t: BlockTable, maxFailures: int, blockDuration: int, r: Request)
    requires !ActiveBlock(t, r.ip, r.now)
    ensures var s := Transition(t, maxFailures, blockDuration, r);
      && (r.ip in s.table.blockedIps <==>
          r.downstream >= FirstErrorStatus && Count(s.table.failureCounts, r.ip) >= maxFailures)
      && (r.ip in s.table.blockedIps ==> s.table.blockedIps[r.ip] == r.doneAt + blockDuration)
  {
  }

  /** Only the requesting client's entries can change. */
  lemma OtherClientsUnchanged(t: BlockTable, maxFailures: int, blockDuration: int, r: Request, other: string)
    requires other != r.ip
    ensures var s := Transition(t, maxFailures, blockDuration, r);
      && (other in s.table.blockedIps <==> other in t.blockedIps)
      && (other in t.blockedIps ==> s.table.blockedIps[other] == t.blockedIps[other])
      && (other in s.table.failureCounts <==> other in t.failureCounts)
      && Count(s.table.failureCounts, other) == Count(t.failureCounts, other)
  {
  }

  /** Each request keeps the invariant when the limit is at least 1. */
  lemma TransitionKeepsConsistent(t: BlockTable, maxFailures: int, blockDuration: int, r: Request)
    requires maxFailures >= 1 && Consistent(t, maxFailures)
    ensures Consistent(Transition(t, maxFailures, blockDuration, r).table, maxFailures)
  {
    var s := Transition(t, maxFailures, blockDuration, r);
    if !ActiveBlock(t, r.ip, r.now) {
      forall ip | ip != r.ip
        ensures ip in s.table.blockedIps <==> Count(s.table.failureCounts, ip) == maxFailures
      {
        OtherClientsUnchanged(t, maxFailures, blockDuration, r, ip);
      }
      forall ip | ip in s.table.failureCounts && ip != r.ip
        ensures 0 <= s.table.failureCounts[ip] <= maxFailures
      {
        OtherClientsUnchanged(t, maxFailures, blockDuration, r, ip);
      }
      assert r.ip !in t.blockedIps ==> Count(t.failureCounts, r.ip) < maxFailures;
      BlockAtLimit(t, maxFailures, blockDuration, r);
      ForwardedAndCounted(t, maxFailures, blockDuration, r);
    }
  }

  /** The tables after a sequence of requests, one after the other. */
  function Run(t: BlockTable, maxFailures: int, blockDuration: int, rs: seq<Request>): BlockTable
    decreases |rs|
  {
    if |rs| == 0 then t
    else Run(Transition(t, maxFailures, blockDuration, rs[0]).table, maxFailures, blockDuration, rs[1..])
  }

  /** The invariant holds after any sequence of requests. */
  lemma {:induction false} RunKeepsConsistent(t: BlockTable, maxFailures: int, blockDuration: int, rs: seq<Request>)
    requires maxFailures >= 1 && Consistent(t, maxFailures)
    ensures Consistent(Run(t, maxFailures, blockDuration, rs), maxFailures)
    decreases |rs|
  {
    if |rs| > 0 {
      TransitionKeepsConsistent(t, maxFailures, blockDuration, rs[0]);
      RunKeepsConsistent(Transition(t, maxFailures, blockDuration, rs[0]).table, maxFailures, blockDuration, rs[1..]);
    }
  }

  /** A client that is not blocked and has `k` failures is blocked after
      `maxFailures - k` further failing requests, each of which is forwarded,
      and the block runs from the last one's second clock reading. */
  lemma {:induction false} FailuresLeadToBlock(t: BlockTable, maxFailures: int, blockDuration: int, ip: string, rs: seq<Request>)
    requires maxFailures >= 1 && Consistent(t, maxFailures) && ip !in t.blockedIps
    requires |rs| == maxFailures - Count(t.failureCounts, ip)
    requires forall k :: 0 <= k < |rs| ==> rs[k].ip == ip && rs[k].downstream >= FirstErrorStatus
    ensures var u := Run(t, maxFailures, blockDuration, rs);
      && ip in u.blockedIps
      && u.blockedIps[ip] == rs[|rs| - 1].doneAt + blockDuration
      && Count(u.failureCounts, ip) == maxFailures
    decreases |rs|
  {
    var r := rs[0];
    var s := Transition(t, maxFailures, blockDuration, r);
    ForwardedAndCounted(t, maxFailures, blockDuration, r);
    BlockAtLimit(t, maxFailures, blockDuration, r);
    TransitionKeepsConsistent(t, maxFailures, blockDuration, r);
    if |rs| == 1 {
      assert Run(s.table, maxFailures, blockDuration, rs[1..]) == s.table;
    } else {
      FailuresLeadToBlock(s.table, maxFailures, blockDuration, ip, rs[1..]);
      assert rs[1..][|rs[1..]| - 1] == rs[|rs| - 1];
    }
  }

  /** `IPBlockMiddleware`: the two tables as fields, updated in place by `Dispatch`. */
  class IpBlockMiddleware {
    var blockedIps: map<string, int>
    var failureCounts: map<string, int>
    const maxFailures: int
    const blockDuration: int

    function Table(): BlockTable
      reads this
    {
      BlockTable(blockedIps, failureCounts)
    }

    ghost predicate Valid()
      reads this
    {
      maxFailures >= 1 ==> Consistent(Table(), maxFailures)
    }

    /** `__init__`: both tables empty. */
    constructor (maxFailures: int, blockDuration: int)
      ensures Valid()
      ensures this.maxFailures == maxFailures && this.blockDuration == blockDuration
      ensures blockedIps == map[] && failureCounts == map[]
    {
      this.maxFailures := maxFailures;
      this.blockDuration := blockDuration;
      blockedIps := map[];
      failureCounts := map[];
    }

    /** `__init__` with its default arguments. */
    constructor WithDefaults()
      ensures Valid()
      ensures maxFailures == DefaultMaxFailures && blockDuration == DefaultBlockDuration
      ensures blockedIps == map[] && failureCounts == map[]
    {
      maxFailures := DefaultMaxFailures;
      blockDuration := DefaultBlockDuration;
      blockedIps := map[];
      failureCounts := map[];
    }

    /** `dispatch` for one request. */
    method Dispatch(r: Request) returns (status: int, forwarded: bool)
      requires Valid()
      modifies this
      ensures Valid()
      ensures Step(Table(), status, forwarded) == Transition(old(Table()), maxFailures, blockDuration, r)
    {
      if maxFailures >= 1 {
        TransitionKeepsConsistent(Table(), maxFailures, blockDuration, r);
      }
      if r.ip in blockedIps {
        if r.now < blockedIps[r.ip] {
          return StatusForbidden, false;
        } else {
          blockedIps := blockedIps - {r.ip};
          failureCounts := failureCounts[r.ip := 0];
        }
      }
      status, forwarded := r.downstream, true;
      if status >= FirstErrorStatus {
        failureCounts := failureCounts[r.ip := Count(failureCounts, r.ip) + 1];
        if failureCounts[r.ip] >= maxFailures {
          blockedIps := blockedIps[r.ip := r.doneAt + blockDuration];
        }
      }
    }
  }
}
