/** Registrations with a lease, as values: what the manager's registry means, and what holds of
    it over whole runs. */
module Leases {

  const MANAGER := "MANAGER"
  const MIN_TTL := 10

  datatype ServerDesc = ServerDesc(name: string, protocolVersion: nat)
  datatype Result = Ok | BadParam | ServerUnknown

  /** A registered server. Its current expiry event is due at `triggerAt`. */
  datatype Lease = Lease(port: nat, expiresAt: int, timeToLive: nat, living: bool, triggerAt: int)

  type Registry = map<ServerDesc, Lease>

  predicate ValidName(name: string) {
    forall c :: c in name ==> 'A' <= c <= 'Z' || 'a' <= c <= 'z' || '0' <= c <= '9' || c == '_'
  }

  /** The characters of a name are digits, letters and the underscore, in ASCII. */
  lemma NameCharacters(name: string)
    ensures ValidName(name) <==>
      forall c :: c in name ==> var code := c as int; 48 <= code <= 57 || 65 <= code <= 90 || code == 95 || 97 <= code <= 122
  {
  }

  predicate Registrable(d: ServerDesc) {
    ValidName(d.name) && d.protocolVersion >= 1 && d.name != MANAGER
  }

  /** A known server keeps the time to live of its first registration. */
  function Registered(r: Registry, d: ServerDesc, port: nat, ttl: nat, now: int): (r': Registry) {
    if !Registrable(d) then r
    else if d in r then
      r[d := Lease(port, now + ttl, r[d].timeToLive, true, now + ttl)]
    else
      r[d := Lease(port, now + ttl, ttl, true, now + ttl)]
  }

  lemma RegisteredKeys(r: Registry, d: ServerDesc, port: nat, ttl: nat, now: int)
    requires Registrable(d)
    ensures Registered(r, d, port, ttl, now).Keys == r.Keys + {d}
  {
  }

  function Unregistered(r: Registry, d: ServerDesc): (r': Registry) {
    if d.name == MANAGER then r else r - {d}
  }

  /** A living server is marked dead, and gets its time to live once more; a dead one goes. */
  function Expired(r: Registry, d: ServerDesc, now: int): (r': Registry)
    requires d in r
  {
    if r[d].living then r[d := r[d].(living := false, triggerAt := now + r[d].timeToLive)] else r - {d}
  }

  datatype Event =
    | Register(desc: ServerDesc, port: nat, ttl: nat, at: int)
    | Unregister(desc: ServerDesc, at: int)
    | Expire(desc: ServerDesc, at: int)

  /** An event queued for expiry triggers when its time has come, or later. */
  predicate Possible(r: Registry, e: Event) {
    e.Expire? ==> e.desc in r && r[e.desc].triggerAt <= e.at
  }

  function Step(r: Registry, e: Event): (r': Registry)
    requires Possible(r, e)
  {
    match e
    case Register(d, port, ttl, at) => Registered(r, d, port, ttl, at)
    case Unregister(d, _) => Unregistered(r, d)
    case Expire(d, at) => Expired(r, d, at)
  }

  /** The events can happen one after the other from time `now` on. */
  predicate Lawful(r: Registry, es: seq<Event>, now: int)
    decreases es
  {
    es == [] ||
    (now <= es[0].at && Possible(r, es[0]) && Lawful(Step(r, es[0]), es[1..], es[0].at))
  }

  function Execute(r: Registry, es: seq<Event>, now: int): (r': Registry)
    requires Lawful(r, es, now)
    decreases es
  {
    if es == [] then r else Execute(Step(r, es[0]), es[1..], es[0].at)
  }

  /** One more event at the end of a run. */
  lemma {:induction false} LawfulMore(r: Registry, es: seq<Event>, now: int, e: Event)
    requires Lawful(r, es, now) && Possible(Execute(r, es, now), e)
    requires e.at >= if es == [] then now else es[|es| - 1].at
    ensures Lawful(r, es + [e], now) && Execute(r, es + [e], now) == Step(Execute(r, es, now), e)
    decreases es
  {
    if es == [] {
      assert [e][1..] == [];
      assert es + [e] == [e] && Lawful(Step(r, e), [], e.at);
    } else {
      assert (es + [e])[1..] == es[1..] + [e];
      LawfulMore(Step(r, es[0]), es[1..], es[0].at, e);
    }
  }

  /** The events of a run but for the expiries. */
  function Requests(es: seq<Event>): (rs: seq<Event>) {
    if es == [] then []
    else Requests(es[..|es| - 1]) + if es[|es| - 1].Expire? then [] else [es[|es| - 1]]
  }

  lemma RequestsMore(es: seq<Event>, e: Event)
    ensures Requests(es + [e]) == Requests(es) + if e.Expire? then [] else [e]
  {
    assert (es + [e])[..|es|] == es;
  }

  lemma {:induction false} InRequests(es: seq<Event>, i: nat)
    requires i < |es| && !es[i].Expire?
    ensures es[i] in Requests(es)
  {
    if i < |es| - 1 {
      InRequests(es[..|es| - 1], i);
    }
  }

  /** Only servers with a proper name and version are ever registered. */
  predicate Proper(r: Registry) {
    forall d :: d in r ==> Registrable(d)
  }

  lemma {:induction false} RunsKeepProper(r: Registry, es: seq<Event>, now: int)
    requires Proper(r) && Lawful(r, es, now)
    ensures Proper(Execute(r, es, now))
    decreases es
  {
    if es != [] {
      RunsKeepProper(Step(r, es[0]), es[1..], es[0].at);
    }
  }

  /** Event `i` removes the server `d` on purpose. */
  predicate Withdraws(es: seq<Event>, i: nat, d: ServerDesc)
    requires i < |es|
  {
    es[i].Unregister? && es[i].desc == d
  }

  /** Events `j` and `i` are expiries of `d` with no registration of `d` between them. */
  predicate ExpiresTwice(es: seq<Event>, j: nat, i: nat, d: ServerDesc) {
    && j < i < |es|
    && es[j].Expire? && es[j].desc == d
    && es[i].Expire? && es[i].desc == d
    && forall k :: j < k < i ==> !(es[k].Register? && es[k].desc == d)
  }

  /** A server that is marked dead leaves by being unregistered, or by expiring, and no renewal
      came before that. */
  lemma {:induction false} DeadLeaves(r: Registry, es: seq<Event>, now: int, d: ServerDesc) returns (i: nat)
    requires Proper(r) && Lawful(r, es, now) && d in r && !r[d].living && d !in Execute(r, es, now)
    ensures i < |es|
    ensures
      || Withdraws(es, i, d)
      || (es[i].Expire? && es[i].desc == d && forall k :: 0 <= k < i ==> !(es[k].Register? && es[k].desc == d))
      || (exists j: nat :: ExpiresTwice(es, j, i, d))
    decreases es
  {
    var e, rest := es[0], es[1..];
    var r' := Step(r, e);
    if e.desc == d && (e.Unregister? || e.Expire?) {
      i := 0;
    } else if r'[d].living {
      var j;
      j, i := LivingLeaves(r', rest, e.at, d);
      i := i + 1;
      if !Withdraws(rest, i - 1, d) {
        assert ExpiresTwice(es, j + 1, i, d);
      }
    } else {
      var i' := DeadLeaves(r', rest, e.at, d);
      i := i' + 1;
      if exists j: nat :: ExpiresTwice(rest, j, i', d) {
        var j: nat :| ExpiresTwice(rest, j, i', d);
        assert ExpiresTwice(es, j + 1, i, d);
      }
    }
  }

  /** A living server leaves the registry only by being unregistered, or after two triggers of
      its expiry event with no registration between them. */
  lemma {:induction false} LivingLeaves(r: Registry, es: seq<Event>, now: int, d: ServerDesc) returns (j: nat, i: nat)
    requires Proper(r) && Lawful(r, es, now) && d in r && r[d].living && d !in Execute(r, es, now)
    ensures i < |es| && (Withdraws(es, i, d) || ExpiresTwice(es, j, i, d))
    decreases es
  {
    var e, rest := es[0], es[1..];
    var r' := Step(r, e);
    j := 0;
    if e.desc == d && e.Unregister? {
      i := 0;
    } else if r'[d].living {
      j, i := LivingLeaves(r', rest, e.at, d);
      i, j := i + 1, j + 1;
      if !Withdraws(rest, i - 1, d) {
        assert ExpiresTwice(es, j, i, d);
      }
    } else {
      var i' := DeadLeaves(r', rest, e.at, d);
      i := i' + 1;
      if !Withdraws(rest, i', d) {
        if exists k: nat :: ExpiresTwice(rest, k, i', d) {
          var k: nat :| ExpiresTwice(rest, k, i', d);
          j := k + 1;
        }
        assert ExpiresTwice(es, j, i, d);
      }
    }
  }

  predicate Mentions(es: seq<Event>, d: ServerDesc) {
    exists i :: 0 <= i < |es| && es[i].desc == d && !es[i].Expire?
  }

  /** The earliest time at which an expiry can remove the server. */
  function Deadline(l: Lease): (t: int) {
    if l.living then l.triggerAt + l.timeToLive else l.triggerAt
  }

  /** Without another request for it, a server is known until its lease has run out twice, and
      living until it has run out once. */
  lemma {:induction false} Survives(r: Registry, es: seq<Event>, now: int, d: ServerDesc)
    requires Lawful(r, es, now) && d in r && !Mentions(es, d)
    requires forall i :: 0 <= i < |es| ==> es[i].at < Deadline(r[d])
    ensures d in Execute(r, es, now)
    ensures (forall i :: 0 <= i < |es| ==> es[i].at < r[d].triggerAt) ==> Execute(r, es, now)[d] == r[d]
    decreases es
  {
    if es != [] {
      var rest := es[1..];
      assert forall i :: 0 <= i < |rest| ==> rest[i] == es[i + 1];
      assert !Mentions(rest, d);
      Survives(Step(r, es[0]), rest, es[0].at, d);
    }
  }

  /** Event `i` is the last request for `d`, a registration with these particulars; afterwards it may
      only expire. */
  predicate LastRequest(es: seq<Event>, i: nat, d: ServerDesc, port: nat, ttl: nat, at: int) {
    && i < |es| && es[i] == Register(d, port, ttl, at)
    && forall k :: i < k < |es| && es[k].desc == d ==> es[k].Expire?
  }

  /** Whatever else happens, a server is known under the port of its last registration, until the
      time that asked for, if it is known at all. */
  lemma {:induction false} LastRegistration(r: Registry, es: seq<Event>, now: int, i: nat, d: ServerDesc, port: nat, ttl: nat, at: int)
    requires Lawful(r, es, now) && LastRequest(es, i, d, port, ttl, at) && Registrable(d)
    ensures d in Execute(r, es, now) ==>
      Execute(r, es, now)[d].port == port && Execute(r, es, now)[d].expiresAt == at + ttl
    decreases es
  {
    var rest, r' := es[1..], Step(r, es[0]);
    if i > 0 {
      assert rest[i - 1] == es[i];
      assert forall k :: i - 1 < k < |rest| ==> rest[k] == es[k + 1];
      LastRegistration(r', rest, es[0].at, i - 1, d, port, ttl, at);
    } else {
      assert forall k :: 0 <= k < |rest| ==> rest[k] == es[k + 1];
      ParticularsStay(r', rest, es[0].at, d, port, at + ttl);
    }
  }

  lemma {:induction false} ParticularsStay(r: Registry, es: seq<Event>, now: int, d: ServerDesc, port: nat, expiresAt: int)
    requires Lawful(r, es, now) && forall k :: 0 <= k < |es| && es[k].desc == d ==> es[k].Expire?
    requires d in r ==> r[d].port == port && r[d].expiresAt == expiresAt
    ensures d in Execute(r, es, now) ==>
      Execute(r, es, now)[d].port == port && Execute(r, es, now)[d].expiresAt == expiresAt
    decreases es
  {
    if es != [] {
      assert forall k :: 0 <= k < |es[1..]| ==> es[1..][k] == es[k + 1];
      ParticularsStay(Step(r, es[0]), es[1..], es[0].at, d, port, expiresAt);
    }
  }

  /** Directly after it the server is known and living, and its lease lasts the time asked for; the
      others are as before. */
  lemma JustRegistered(r: Registry, d: ServerDesc, port: nat, ttl: nat, at: int)
    ensures var r' := Step(r, Register(d, port, ttl, at));
      && (Registrable(d) ==> d in r' && r'[d].living && r'[d].port == port && r'[d].expiresAt == r'[d].triggerAt == at + ttl)
      && (forall x :: x != d || !Registrable(d) ==> (x in r' <==> x in r) && (x in r ==> r'[x] == r[x]))
      && (Registrable(d) && d !in r ==> r'[d].timeToLive == ttl)
  {
  }

  /** A withdrawal takes out this server, and an expiry marks it dead for another time to live, or
      takes it out if it is dead; the others are as before. */
  lemma JustWithdrawn(r: Registry, d: ServerDesc, at: int)
    ensures var r' := Step(r, Unregister(d, at));
      && (d in r' <==> d in r && d.name == "MANAGER")
      && forall x :: x != d ==> (x in r' <==> x in r) && (x in r ==> r'[x] == r[x])
  {
  }

  lemma JustExpired(r: Registry, d: ServerDesc, at: int)
    requires Possible(r, Expire(d, at))
    ensures var r' := Step(r, Expire(d, at));
      && (d in r' <==> r[d].living)
      && (d in r' ==> r'[d] == Lease(r[d].port, r[d].expiresAt, r[d].timeToLive, false, at + r[d].timeToLive))
      && forall x :: x != d ==> (x in r' <==> x in r) && (x in r ==> r'[x] == r[x])
  {
  }

  /** A server that has never been registered, or has been unregistered since, is unknown. */
  lemma {:induction false} UnknownStays(r: Registry, es: seq<Event>, now: int, d: ServerDesc)
    requires Lawful(r, es, now) && d !in r && forall k :: 0 <= k < |es| && es[k].desc == d ==> !es[k].Register?
    ensures d !in Execute(r, es, now)
    decreases es
  {
    if es != [] {
      assert forall k :: 0 <= k < |es[1..]| ==> es[1..][k] == es[k + 1];
      UnknownStays(Step(r, es[0]), es[1..], es[0].at, d);
    }
  }

  /** The time to live that counts for a marked server is that of its first registration,
      whatever later registrations ask for. */
  lemma {:induction false} FirstTimeToLiveStays(r: Registry, es: seq<Event>, now: int, d: ServerDesc)
    requires Lawful(r, es, now) && d in r
    requires forall i :: 0 <= i < |es| ==> es[i].desc == d ==> es[i].Register?
    ensures d in Execute(r, es, now) && Execute(r, es, now)[d].timeToLive == r[d].timeToLive
    decreases es
  {
    if es != [] {
      assert es[0].desc == d ==> es[0].Register?;
      assert forall i :: 0 <= i < |es[1..]| ==> es[1..][i] == es[i + 1];
      FirstTimeToLiveStays(Step(r, es[0]), es[1..], es[0].at, d);
    }
  }

  /** No event comes later than `gap` after the last renewal of the server `d`, all its renewals
      ask for `ttl`, and it is not unregistered. */
  predicate Renewed(es: seq<Event>, d: ServerDesc, last: int, ttl: nat, gap: nat)
    decreases es
  {
    es == [] ||
    var e := es[0];
    && e.at <= last + gap
    && if e.desc != d || e.Expire? then Renewed(es[1..], d, last, ttl, gap)
      else e.Register? && e.ttl == ttl && Renewed(es[1..], d, e.at, ttl, gap)
  }

  /** A server that was last renewed at time `last`. */
  predicate Fresh(r: Registry, d: ServerDesc, last: int, ttl: nat) {
    d in r && Registrable(d) && r[d].living && r[d].triggerAt == last + ttl && r[d].timeToLive == ttl
  }

  /** A run in which a fresh server is renewed in time. */
  predicate RenewedRun(r: Registry, es: seq<Event>, now: int, d: ServerDesc, last: int, ttl: nat, gap: nat) {
    Lawful(r, es, now) && Fresh(r, d, last, ttl) && Renewed(es, d, last, ttl, gap)
  }

  lemma {:induction false} RenewedStaysLiving(r: Registry, es: seq<Event>, now: int, d: ServerDesc, last: int, ttl: nat, gap: nat)
    requires Lawful(r, es, now) && Fresh(r, d, last, ttl) && Renewed(es, d, last, ttl, gap) && gap < ttl
    ensures d in Execute(r, es, now) && Execute(r, es, now)[d].living
    decreases es
  {
    if es != [] {
      var e := es[0];
      RenewedStaysLiving(Step(r, e), es[1..], e.at, d, if e.desc == d then e.at else last, ttl, gap);
    }
  }

  /** As `Fresh`, or marked dead since. */
  predicate Lasting(r: Registry, d: ServerDesc, last: int, ttl: nat) {
    && d in r && Registrable(d) && r[d].timeToLive == ttl
    && r[d].triggerAt >= last + if r[d].living then ttl else ttl + ttl
  }

  lemma {:induction false} RenewedStaysKnown(r: Registry, es: seq<Event>, now: int, d: ServerDesc, last: int, ttl: nat, gap: nat)
    requires Lawful(r, es, now) && Lasting(r, d, last, ttl) && Renewed(es, d, last, ttl, gap) && gap < ttl + ttl
    ensures d in Execute(r, es, now)
    decreases es
  {
    if es != [] {
      var e := es[0];
      RenewedStaysKnown(Step(r, e), es[1..], e.at, d, if e.desc == d && e.Register? then e.at else last, ttl, gap);
    }
  }

  /** Renewed in time, a server is living after every run exactly if the gaps between renewals
      are shorter than its time to live. */
  lemma LivingThreshold(ttl: nat, gap: nat)
    ensures gap < ttl <==> forall r: Registry, es, now, d, last ::
      RenewedRun(r, es, now, d, last, ttl, gap) ==>
      d in Execute(r, es, now) && Execute(r, es, now)[d].living
  {
    if gap < ttl {
      forall r: Registry, es, now, d, last | RenewedRun(r, es, now, d, last, ttl, gap)
        ensures d in Execute(r, es, now) && Execute(r, es, now)[d].living
      {
        RenewedStaysLiving(r, es, now, d, last, ttl, gap);
      }
    } else {
      var r, d := FreshServer(ttl);
      ExpiryMarks(r, d, ttl);
      var es := [Expire(d, ttl)];
      assert Renewed(es[1..], d, 0, ttl, gap);
      assert RenewedRun(r, es, 0, d, 0, ttl, gap) && !Execute(r, es, 0)[d].living;
    }
  }

  /** It is known after every run exactly if they are shorter than twice its time to live. */
  lemma KnownThreshold(ttl: nat, gap: nat)
    ensures gap < ttl + ttl <==> forall r: Registry, es, now, d, last ::
      RenewedRun(r, es, now, d, last, ttl, gap) ==> d in Execute(r, es, now)
  {
    if gap < ttl + ttl {
      forall r: Registry, es, now, d, last | RenewedRun(r, es, now, d, last, ttl, gap)
        ensures d in Execute(r, es, now)
      {
        RenewedStaysKnown(r, es, now, d, last, ttl, gap);
      }
    } else {
      var r, d := FreshServer(ttl);
      ExpiriesRemove(r, d, ttl);
      var es := [Expire(d, ttl), Expire(d, ttl + ttl)];
      assert Renewed(es[1..][1..], d, 0, ttl, gap);
      assert Renewed(es[1..], d, 0, ttl, gap);
      assert RenewedRun(r, es, 0, d, 0, ttl, gap) && d !in Execute(r, es, 0);
    }
  }

  lemma FreshServer(ttl: nat) returns (r: Registry, d: ServerDesc)
    ensures Fresh(r, d, 0, ttl)
  {
    d := ServerDesc("a", 1);
    r := map[d := Lease(0, ttl, ttl, true, ttl)];
  }

  lemma ExpiryMarks(r: Registry, d: ServerDesc, ttl: nat)
    requires Fresh(r, d, 0, ttl)
    ensures Lawful(r, [Expire(d, ttl)], 0)
    ensures var r' := Execute(r, [Expire(d, ttl)], 0); d in r' && !r'[d].living && r'[d].triggerAt == ttl + ttl
  {
    var e := Expire(d, ttl);
    assert [e][1..] == [];
    assert Lawful(Step(r, e), [], ttl);
  }

  lemma ExpiriesRemove(r: Registry, d: ServerDesc, ttl: nat)
    requires Fresh(r, d, 0, ttl)
    ensures Lawful(r, [Expire(d, ttl), Expire(d, ttl + ttl)], 0)
    ensures d !in Execute(r, [Expire(d, ttl), Expire(d, ttl + ttl)], 0)
  {
    var e, e' := Expire(d, ttl), Expire(d, ttl + ttl);
    var r' := Step(r, e);
    assert [e'][1..] == [] && [e, e'][1..] == [e'];
    assert Lawful(Step(r', e'), [], ttl + ttl) && Lawful(r', [e'], ttl);
    assert Execute(r', [e'], ttl) == Execute(Step(r', e'), [], ttl + ttl) == Step(r', e');
  }

  /** When the server tries to register again, after a registration that worked or failed. */
  function RenewalDelay(ttl: nat, worked: bool): (secs: nat) {
    if !worked then MIN_TTL
    else
      var secs := ttl / 4 * 3;
      if secs < MIN_TTL then MIN_TTL else secs
  }

  /** A server renews after three quarters of its time to live, rounded down in quarters, but never
      before the minimum, which is also how long it waits after a failure. */
  lemma RenewalDelayIs(ttl: nat, worked: bool)
    ensures var secs := RenewalDelay(ttl, worked);
      && secs >= 10 && (!worked ==> secs == 10)
      && (worked && ttl >= 16 ==> secs % 3 == 0 && 4 * secs <= 3 * ttl < 4 * (secs + 3))
      && (worked && ttl < 16 ==> secs == 10)
  {
  }

  /** With every renewal working at once, a server stays living in every run exactly if its time
      to live is more than the minimum; and it stays known exactly if that is more than five. */
  lemma PunctualRenewal(ttl: nat)
    ensures RenewalDelay(ttl, true) < ttl <==> ttl > MIN_TTL
    ensures RenewalDelay(ttl, true) < ttl + ttl <==> ttl > 5
  {
  }

  /** Lease safety: renewed on time, a server is living in every reachable state exactly if its
      time to live is more than the minimum. */
  lemma LeaseSafety(ttl: nat)
    ensures ttl > MIN_TTL <==> forall r: Registry, es, now, d, last ::
      RenewedRun(r, es, now, d, last, ttl, RenewalDelay(ttl, true)) ==>
      d in Execute(r, es, now) && Execute(r, es, now)[d].living
  {
    LivingThreshold(ttl, RenewalDelay(ttl, true));
    PunctualRenewal(ttl);
  }

  /** The gap between two renewals with `failures` failed attempts between them. */
  function Gap(ttl: nat, failures: nat): (gap: nat) {
    if failures == 0 then RenewalDelay(ttl, true) else Gap(ttl, failures - 1) + RenewalDelay(ttl, false)
  }

  /** Failed attempts delay the next renewal by the minimum each. A server stays known as long as
      they cost less than its time to live. */
  lemma FailuresTolerated(ttl: nat, failures: nat)
    requires ttl > MIN_TTL
    ensures Gap(ttl, failures) == RenewalDelay(ttl, true) + failures * MIN_TTL
    ensures failures * MIN_TTL < ttl ==> Gap(ttl, failures) < ttl + ttl
  {
  }
}
