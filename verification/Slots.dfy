/** WebSocket admission: a global atomic counter, a per-address map under a lock,
  and the paths that give slots back, for any number of interleaved handlers. */
module Slots {

  const IP_LIMIT := 10

  // ------------------------------------------------------------ atomic sections

  function InMap(ips: map<string, int>, ip: string): int {
    if ip in ips then ips[ip] else 0
  }

  /** The locked section on the way in. */
  function EnterIp(ips: map<string, int>, ip: string): (map<string, int>, bool) {
    var more := ips[ip := InMap(ips, ip) + 1];
    if more[ip] > IP_LIMIT then (more[ip := more[ip] - 1], false) else (more, true)
  }

  /** The locked section on the way out. */
  function LeaveIp(ips: map<string, int>, ip: string): map<string, int> {
    if InMap(ips, ip) - 1 <= 0 then ips - {ip} else ips[ip := InMap(ips, ip) - 1]
  }

  // ------------------------------------------------------------------- handlers

  /** Where a handler is between two atomic sections. */
  datatype Place =
    | Arrived        // before the atomic increment
    | OverLimit      // incremented, over the limit: about to decrement
    | Past           // past the global check, before the per-address section
    | IpRefused      // refused there: about to decrement the global counter
    | Accepting      // counted in both, upgrading the connection
    | AcceptFailed   // upgrade failed: about to decrement the global counter
    | FailedIp       // and then the per-address one
    | Serving        // the connection is open
    | ClosedIp       // closed and out of the global counter, not yet of the other
    | Gone

  datatype Handler = Handler(ip: string, place: Place)

  /** `leaked` counts the connections that closed with an empty address, which
    leave the per-address map as it is. */
  datatype State = State(count: int, ips: map<string, int>, handlers: map<nat, Handler>, leaked: nat)

  datatype Move =
    | Arrive(id: nat, ip: string)
    | Advance(id: nat, accepted: bool)

  function Put(s: State, id: nat, place: Place): State
    requires id in s.handlers
  {
    s.(handlers := s.handlers[id := s.handlers[id].(place := place)])
  }

  function Step(s: State, max: int, m: Move): State {
    match m
    case Arrive(id, ip) =>
      if id in s.handlers then s else s.(handlers := s.handlers[id := Handler(ip, Arrived)])
    case Advance(id, accepted) =>
      if id !in s.handlers then s
      else
        var ip := s.handlers[id].ip;
        match s.handlers[id].place
        case Arrived => Put(s.(count := s.count + 1), id, if s.count + 1 > max then OverLimit else Past)
        case OverLimit => Put(s.(count := s.count - 1), id, Gone)
        case Past =>
          var (ips, ok) := EnterIp(s.ips, ip);
          Put(s.(ips := ips), id, if ok then Accepting else IpRefused)
        case IpRefused => Put(s.(count := s.count - 1), id, Gone)
        case Accepting => Put(s, id, if accepted then Serving else AcceptFailed)
        case AcceptFailed => Put(s.(count := s.count - 1), id, FailedIp)
        case FailedIp => Put(s.(ips := LeaveIp(s.ips, ip)), id, Gone)
        case Serving => Put(s.(count := s.count - 1), id, ClosedIp)
        case ClosedIp =>
          if ip == "" then Put(s.(leaked := s.leaked + 1), id, Gone)
          else Put(s.(ips := LeaveIp(s.ips, ip)), id, Gone)
        case Gone => s
  }

  function Run(max: int, moves: seq<Move>): State {
    if moves == [] then State(0, map[], map[], 0)
    else Step(Run(max, moves[..|moves| - 1]), max, moves[|moves| - 1])
  }

  // ------------------------------------------------------------------- counting

  datatype Kind = Holding | PastCheck | AtIp(ip: string)

  predicate In(k: Kind, h: Handler) {
    match k
    case Holding =>
      h.place == OverLimit || h.place == Past || h.place == IpRefused || h.place == Accepting
      || h.place == AcceptFailed || h.place == Serving
    case PastCheck =>
      h.place == Past || h.place == IpRefused || h.place == Accepting || h.place == AcceptFailed || h.place == Serving
    case AtIp(ip) =>
      h.ip == ip && (h.place == Accepting || h.place == AcceptFailed || h.place == FailedIp
                     || h.place == Serving || h.place == ClosedIp)
  }

  ghost function Ids(k: Kind, handlers: map<nat, Handler>): set<nat> {
    set id | id in handlers && In(k, handlers[id])
  }

  ghost function Count(k: Kind, handlers: map<nat, Handler>): nat { |Ids(k, handlers)| }

  function One(b: bool): nat { if b then 1 else 0 }

  lemma CountUpdate(k: Kind, handlers: map<nat, Handler>, id: nat, h: Handler)
    ensures Count(k, handlers[id := h])
         == Count(k, handlers) - One(id in handlers && In(k, handlers[id])) + One(In(k, h))
  {
    var before, after := Ids(k, handlers), Ids(k, handlers[id := h]);
    UpdatedIds(k, handlers, id, h);
    assert id in before <==> id in handlers && In(k, handlers[id]);
    hide Ids, In;
    Removed(before, id);
  }

  lemma UpdatedIds(k: Kind, handlers: map<nat, Handler>, id: nat, h: Handler)
    ensures Ids(k, handlers[id := h]) == Ids(k, handlers) - {id} + (if In(k, h) then {id} else {})
  {
    hide In;
  }

  lemma Removed(s: set<nat>, id: nat)
    ensures |s - {id}| == |s| - One(id in s)
    ensures |s - {id} + {id}| == |s| - One(id in s) + 1
    ensures s - {id} + {} == s - {id}
  {
    if id !in s {
      assert s - {id} == s;
    }
  }

  lemma CountNone(k: Kind, handlers: map<nat, Handler>)
    requires forall id :: id in handlers ==> handlers[id].place == Gone
    ensures Count(k, handlers) == 0
  {
    assert Ids(k, handlers) == {};
  }

  // ------------------------------------------------------------------ invariant

  function Leak(s: State, ip: string): nat { if ip == "" then s.leaked else 0 }

  ghost predicate IpsRight(s: State) {
    && (forall ip :: InMap(s.ips, ip) == Count(AtIp(ip), s.handlers) + Leak(s, ip))
    && (forall ip :: InMap(s.ips, ip) <= IP_LIMIT)
    && (forall ip :: ip in s.ips ==> s.ips[ip] >= 1)
  }

  ghost predicate Valid(s: State, max: int) {
    && s.count == Count(Holding, s.handlers)
    && (Count(PastCheck, s.handlers) > 0 ==> Count(PastCheck, s.handlers) <= max)
    && IpsRight(s)
  }

  lemma PastIsHolding(handlers: map<nat, Handler>)
    ensures Count(PastCheck, handlers) <= Count(Holding, handlers)
  {
    var p, h := Ids(PastCheck, handlers), Ids(Holding, handlers);
    assert p <= h;
    Subset(p, h);
  }

  lemma Subset(a: set<nat>, b: set<nat>)
    requires a <= b
    ensures |a| <= |b|
  {
    assert b == a + (b - a);
  }

  /** A step that leaves the map alone and keeps its handler's standing there. */
  lemma IpsUnchanged(s: State, d: State, id: nat, h: Handler)
    requires IpsRight(s) && d.ips == s.ips && d.leaked == s.leaked && d.handlers == s.handlers[id := h]
    requires id in s.handlers ==> h.ip == s.handlers[id].ip && In(AtIp(h.ip), h) == In(AtIp(h.ip), s.handlers[id])
    requires id !in s.handlers ==> !In(AtIp(h.ip), h)
    ensures IpsRight(d)
  {
    hide Count, InMap;
    forall ip ensures InMap(d.ips, ip) == Count(AtIp(ip), d.handlers) + Leak(d, ip) {
      CountUpdate(AtIp(ip), s.handlers, id, h);
    }
  }

  lemma IpsEntered(s: State, d: State, id: nat)
    requires IpsRight(s) && id in s.handlers && s.handlers[id].place == Past
    requires d == Put(s.(ips := EnterIp(s.ips, s.handlers[id].ip).0), id,
                      if EnterIp(s.ips, s.handlers[id].ip).1 then Accepting else IpRefused)
    ensures IpsRight(d)
  {
    hide Count;
    forall ip ensures InMap(d.ips, ip) == Count(AtIp(ip), d.handlers) + Leak(d, ip) {
      CountUpdate(AtIp(ip), s.handlers, id, d.handlers[id]);
      assert InMap(s.ips, ip) == Count(AtIp(ip), s.handlers) + Leak(s, ip);
    }
  }

  lemma IpsLeft(s: State, d: State, id: nat)
    requires IpsRight(s) && id in s.handlers
    requires s.handlers[id].place == FailedIp || s.handlers[id].place == ClosedIp
    requires if s.handlers[id].place == ClosedIp && s.handlers[id].ip == ""
             then d == Put(s.(leaked := s.leaked + 1), id, Gone)
             else d == Put(s.(ips := LeaveIp(s.ips, s.handlers[id].ip)), id, Gone)
    ensures IpsRight(d)
  {
    hide Count;
    forall ip ensures InMap(d.ips, ip) == Count(AtIp(ip), d.handlers) + Leak(d, ip) {
      CountUpdate(AtIp(ip), s.handlers, id, d.handlers[id]);
      assert InMap(s.ips, ip) == Count(AtIp(ip), s.handlers) + Leak(s, ip);
    }
  }

  lemma StepKeeps(s: State, max: int, m: Move)
    requires Valid(s, max)
    ensures Valid(Step(s, max, m), max)
  {
    hide Count, IpsRight, EnterIp, LeaveIp, InMap, Leak;
    var d := Step(s, max, m);
    var id := m.id;
    if d != s {
      var h := d.handlers[id];
      CountUpdate(Holding, s.handlers, id, h);
      CountUpdate(PastCheck, s.handlers, id, h);
      PastIsHolding(d.handlers);
      if m.Advance? && s.handlers[id].place == Past {
        IpsEntered(s, d, id);
      } else if m.Advance? && (s.handlers[id].place == FailedIp || s.handlers[id].place == ClosedIp) {
        IpsLeft(s, d, id);
      } else {
        IpsUnchanged(s, d, id, h);
      }
    }
  }

  // -------------------------------------------------------------- main theorems

  lemma {:induction false} RunValid(max: int, moves: seq<Move>)
    ensures Valid(Run(max, moves), max)
  {
    if moves == [] {
      forall k ensures Count(k, map[]) == 0 { CountNone(k, map[]); }
    } else {
      RunValid(max, moves[..|moves| - 1]);
      StepKeeps(Run(max, moves[..|moves| - 1]), max, moves[|moves| - 1]);
    }
  }

  /** However any number of handlers interleave: those past the global check never
    exceed the limit, no address is admitted more than ten times at once, the
    global counter is the number of handlers holding a slot, and the entry of an
    address is the number counted there plus, for the empty one, what leaked. */
  lemma LimitsHold(max: int, moves: seq<Move>, ip: string)
    ensures var s := Run(max, moves);
      && (Count(PastCheck, s.handlers) <= max || Count(PastCheck, s.handlers) == 0)
      && Count(AtIp(ip), s.handlers) <= IP_LIMIT
      && s.count == Count(Holding, s.handlers)
      && InMap(s.ips, ip) == Count(AtIp(ip), s.handlers) + Leak(s, ip)
  {
    hide Count;
    RunValid(max, moves);
  }

  /** When every handler is gone the counter is zero; the map is empty exactly when
    no connection closed with an empty address. */
  lemma AllGivenBack(max: int, moves: seq<Move>)
    requires forall id :: id in Run(max, moves).handlers ==> Run(max, moves).handlers[id].place == Gone
    ensures var s := Run(max, moves);
      && s.count == 0
      && s.ips == (if s.leaked == 0 then map[] else map["" := s.leaked])
      && (s.ips == map[] <==> s.leaked == 0)
  {
    hide Count;
    var s := Run(max, moves);
    RunValid(max, moves);
    CountNone(Holding, s.handlers);
    forall ip ensures InMap(s.ips, ip) == Leak(s, ip) {
      CountNone(AtIp(ip), s.handlers);
    }
    assert forall ip :: ip in s.ips ==> InMap(s.ips, ip) == s.ips[ip] >= 1;
    assert s.leaked > 0 ==> InMap(s.ips, "") > 0;
  }

  /** When a handler goes on, over every interleaving: past the global check if and only
    if fewer than max hold a slot, and past the check of its address if and only if
    fewer than ten are counted there, leaks included. Otherwise it is refused. */
  lemma AdmittedIff(max: int, moves: seq<Move>, id: nat, accepted: bool)
    requires id in Run(max, moves).handlers
    ensures var s := Run(max, moves); var h := s.handlers[id];
      var after := Step(s, max, Advance(id, accepted)).handlers[id].place;
      && (h.place == Arrived ==> after == if Count(Holding, s.handlers) < max then Past else OverLimit)
      && (h.place == Past ==>
            after == if Count(AtIp(h.ip), s.handlers) + Leak(s, h.ip) < 10 then Accepting else IpRefused)
      && (h.place == Accepting ==> after == if accepted then Serving else AcceptFailed)
      && (h.place == OverLimit || h.place == IpRefused || h.place == FailedIp || h.place == ClosedIp ==> after == Gone)
      && (h.place == AcceptFailed ==> after == FailedIp) && (h.place == Serving ==> after == ClosedIp)
  {
    RunValid(max, moves);
    hide Run, Count;
    assert InMap(Run(max, moves).ips, Run(max, moves).handlers[id].ip) >= 0;
  }

  /** A connection leaks only if it arrived without an address. */
  lemma {:induction false} NoEmptyNoLeak(max: int, moves: seq<Move>)
    requires forall m :: m in moves && m.Arrive? ==> m.ip != ""
    ensures var s := Run(max, moves); s.leaked == 0 && forall id :: id in s.handlers ==> s.handlers[id].ip != ""
  {
    if moves != [] {
      NoEmptyNoLeak(max, moves[..|moves| - 1]);
      assert moves[|moves| - 1] in moves;
    }
  }

  lemma {:induction false} LeaksStay(max: int, moves: seq<Move>, more: seq<Move>)
    ensures Run(max, moves).leaked <= Run(max, moves + more).leaked
  {
    hide Count, EnterIp, LeaveIp;
    if more == [] {
      assert moves + more == moves;
    } else {
      LeaksStay(max, moves, more[..|more| - 1]);
      assert (moves + more)[..|moves + more| - 1] == moves + more[..|more| - 1];
    }
  }

  /** Ten leaks lock the empty address out: whatever follows, no handler without an
    address is admitted, and there are never more leaks. */
  lemma LeaksLockOut(max: int, moves: seq<Move>, more: seq<Move>)
    ensures Run(max, moves).leaked <= IP_LIMIT
    ensures Run(max, moves).leaked >= IP_LIMIT ==> Count(AtIp(""), Run(max, moves + more).handlers) == 0
  {
    hide Run, Count;
    RunValid(max, moves);
    RunValid(max, moves + more);
    LeaksStay(max, moves, more);
    assert InMap(Run(max, moves).ips, "") <= IP_LIMIT;
    assert InMap(Run(max, moves + more).ips, "") <= IP_LIMIT;
  }

  /** Visits without an address, one after the other. */
  function Visits(n: nat): seq<Move> {
    if n == 0 then []
    else
      var go := Advance(n - 1, true);
      Visits(n - 1) + [Arrive(n - 1, "")] + [go] + [go] + [go] + [go] + [go]
  }

  lemma RunMore(max: int, moves: seq<Move>, m: Move)
    ensures Run(max, moves + [m]) == Step(Run(max, moves), max, m)
  {
    assert (moves + [m])[..|moves|] == moves;
  }

  /** The moves of a visit that has its slot, and the entry it leaves behind. */
  lemma OneVisit(s: State, max: int, id: nat) returns (d: State)
    requires max >= 1 && s.count == 0 && id !in s.handlers && InMap(s.ips, "") < IP_LIMIT
    ensures var go := Advance(id, true);
      d == Step(Step(Step(Step(Step(Step(s, max, Arrive(id, "")), max, go), max, go), max, go), max, go), max, go)
    ensures d == State(0, s.ips["" := InMap(s.ips, "") + 1], s.handlers[id := Handler("", Gone)], s.leaked + 1)
  {
    var go := Advance(id, true);
    var ips := s.ips["" := InMap(s.ips, "") + 1];
    var s1 := Step(s, max, Arrive(id, ""));
    var s2 := Step(s1, max, go);
    assert s2 == State(1, s.ips, s.handlers[id := Handler("", Past)], s.leaked);
    var s3 := Step(s2, max, go);
    assert s3 == State(1, ips, s.handlers[id := Handler("", Accepting)], s.leaked);
    var s4 := Step(s3, max, go);
    assert s4 == State(1, ips, s.handlers[id := Handler("", Serving)], s.leaked);
    var s5 := Step(s4, max, go);
    assert s5 == State(0, ips, s.handlers[id := Handler("", ClosedIp)], s.leaked);
    d := Step(s5, max, go);
  }

  /** Up to ten visits each leave one entry behind. */
  lemma {:induction false} VisitsLeak(max: int, n: nat)
    requires max >= 1 && n <= IP_LIMIT
    ensures var s := Run(max, Visits(n));
      && s.leaked == n && s.count == 0 && InMap(s.ips, "") == n
      && forall id :: id in s.handlers ==> id < n && s.handlers[id].place == Gone
  {
    hide *;
    if n == 0 {
      NoVisit(max);
    } else {
      VisitsLeak(max, n - 1);
      RunVisit(max, n);
      var s := Run(max, Visits(n - 1));
      var d := OneVisit(s, max, n - 1);
      OneEntryMore(s.ips, n - 1);
    }
  }

  lemma NoVisit(max: int)
    ensures Run(max, Visits(0)) == State(0, map[], map[], 0) && InMap(map[], "") == 0
  {}

  lemma OneEntryMore(ips: map<string, int>, n: int)
    requires InMap(ips, "") == n
    ensures InMap(ips["" := n + 1], "") == n + 1
  {}

  lemma RunVisit(max: int, n: nat)
    requires n > 0
    ensures var go := Advance(n - 1, true);
      Run(max, Visits(n))
      == Step(Step(Step(Step(Step(Step(Run(max, Visits(n - 1)), max, Arrive(n - 1, "")), max, go), max, go), max, go),
                   max, go), max, go)
  {
    hide Run, Step;
    var go := Advance(n - 1, true);
    var m1 := Visits(n - 1) + [Arrive(n - 1, "")];
    var m3 := m1 + [go] + [go];
    RunMore(max, Visits(n - 1), Arrive(n - 1, ""));
    RunMore(max, m1, go);
    RunMore(max, m1 + [go], go);
    RunMore(max, m3, go);
    RunMore(max, m3 + [go], go);
    RunMore(max, m3 + [go] + [go], go);
  }

  // ------------------------------------------------------------- the handler

  class Gateway {
    var wsConnCount: int
    var wsIPConns: map<string, int>
    const maxWSConns: int

    constructor (max: int)
      ensures wsConnCount == 0 && wsIPConns == map[] && maxWSConns == max
    {
      wsConnCount, wsIPConns, maxWSConns := 0, map[], max;
    }

    method EnterAddress(ip: string) returns (ok: bool)
      modifies this`wsIPConns
      ensures (wsIPConns, ok) == EnterIp(old(wsIPConns), ip)
      ensures ok <==> InMap(old(wsIPConns), ip) < 10
      ensures InMap(wsIPConns, ip) == InMap(old(wsIPConns), ip) + if ok then 1 else 0
      ensures forall a :: a != ip ==> InMap(wsIPConns, a) == InMap(old(wsIPConns), a)
    {
      wsIPConns := wsIPConns[ip := InMap(wsIPConns, ip) + 1];
      if wsIPConns[ip] > IP_LIMIT {
        wsIPConns := wsIPConns[ip := wsIPConns[ip] - 1];
        return false;
      }
      return true;
    }

    method LeaveAddress(ip: string)
      modifies this`wsIPConns
      ensures wsIPConns == LeaveIp(old(wsIPConns), ip)
      ensures InMap(old(wsIPConns), ip) > 1 ==> InMap(wsIPConns, ip) == InMap(old(wsIPConns), ip) - 1
      ensures InMap(old(wsIPConns), ip) <= 1 ==> ip !in wsIPConns
      ensures forall a :: a != ip ==> InMap(wsIPConns, a) == InMap(old(wsIPConns), a)
    {
      wsIPConns := wsIPConns[ip := InMap(wsIPConns, ip) - 1];
      if wsIPConns[ip] <= 0 {
        wsIPConns := wsIPConns - {ip};
      }
    }

    /** One handler alone, from the upgrade request to its end: whichever way it
      ends it gives back what it took, unless an empty address was served. */
    method HandleWebSocket(ip: string, accepted: bool) returns (served: bool)
      requires forall a :: a in wsIPConns ==> 1 <= wsIPConns[a] <= IP_LIMIT
      modifies this
      ensures wsConnCount == old(wsConnCount)
      ensures served <==> accepted && old(wsConnCount) < maxWSConns && InMap(old(wsIPConns), ip) < 10
      ensures ip != "" || !accepted || old(wsConnCount) >= maxWSConns || InMap(old(wsIPConns), ip) >= IP_LIMIT ==>
                wsIPConns == old(wsIPConns)
      ensures ip == "" && accepted && old(wsConnCount) < maxWSConns && InMap(old(wsIPConns), ip) < IP_LIMIT ==>
                wsIPConns == old(wsIPConns)[ip := InMap(old(wsIPConns), ip) + 1]
    {
      wsConnCount := wsConnCount + 1;
      if wsConnCount > maxWSConns {
        wsConnCount := wsConnCount - 1;
        return false;
      }
      var ok := EnterAddress(ip);
      if !ok {
        wsConnCount := wsConnCount - 1;
        return false;
      }
      if !accepted {
        wsConnCount := wsConnCount - 1;
        LeaveAddress(ip);
        return false;
      }
      // the connection is served here, and then closed
      wsConnCount := wsConnCount - 1;
      if ip != "" {
        LeaveAddress(ip);
      }
      return true;
    }
  }
}
