/** A volatile grant with a lifetime, expired lazily when it is next looked at: the manager's authorization and
    the runtime PIN token are both kept this way. */
module TimedGrants {
  import opened StoreFormat

  /** Issued(g, t): a grant was issued at time t, replacing any other. Revoked: it was cleared. Checked(t): it was
      looked at, and dropped if too old. Idle: something else happened. */
  datatype GrantEvent<T> = Issued(grant: T, time: nat) | Revoked | Checked(time: nat) | Idle

  datatype Held<T> = Held(grant: T, since: nat)

  predicate Usable<T>(held: Option<Held<T>>, lifetime: nat, now: nat) {
    held.Some? && now - held.value.since <= lifetime
  }

  function Next<T>(held: Option<Held<T>>, lifetime: nat, event: GrantEvent<T>): Option<Held<T>> {
    match event
    case Issued(g, t) => Some(Held(g, t))
    case Revoked => None
    case Checked(t) => if Usable(held, lifetime, t) then held else None
    case Idle => held
  }

  function After<T>(lifetime: nat, events: seq<GrantEvent<T>>): Option<Held<T>>
    decreases |events|
  {
    if events == [] then None else Next(After(lifetime, events[..|events| - 1]), lifetime, events[|events| - 1])
  }

  function Time<T>(event: GrantEvent<T>): Option<nat> {
    match event
    case Issued(_, t) => Some(t)
    case Revoked => None
    case Checked(t) => Some(t)
    case Idle => None
  }

  /** The clock does not run backwards, nor wrap. */
  predicate Ordered<T>(events: seq<GrantEvent<T>>, now: nat) {
    && (forall i :: 0 <= i < |events| && Time(events[i]).Some? ==> Time(events[i]).value <= now)
    && (forall i, j :: 0 <= i < j < |events| && Time(events[i]).Some? && Time(events[j]).Some? ==>
          Time(events[i]).value <= Time(events[j]).value)
  }

  /** The grant issued by event `i` is the latest one, nothing has revoked it, and it is not too old. */
  ghost predicate Stands<T>(events: seq<GrantEvent<T>>, i: nat, grant: T, lifetime: nat, now: nat) {
    && i < |events|
    && events[i].Issued? && events[i].grant == grant && now - events[i].time <= lifetime
    && forall j :: i < j < |events| ==> events[j].Checked? || events[j].Idle?
  }

  lemma {:induction false} HeldIsLatest<T>(lifetime: nat, events: seq<GrantEvent<T>>, now: nat) returns (i: nat)
    requires Usable(After(lifetime, events), lifetime, now)
    ensures i < |events| && events[i] == Issued(After(lifetime, events).value.grant,
                                                After(lifetime, events).value.since)
    ensures Stands(events, i, After(lifetime, events).value.grant, lifetime, now)
    decreases |events|
  {
    var last := events[|events| - 1];
    if last.Issued? {
      i := |events| - 1;
    } else {
      i := HeldIsLatest(lifetime, events[..|events| - 1], now);
    }
  }

  lemma {:induction false} LatestIsHeld<T>(lifetime: nat, events: seq<GrantEvent<T>>, i: nat, grant: T, now: nat)
    requires Ordered(events, now) && Stands(events, i, grant, lifetime, now)
    ensures After(lifetime, events) == Some(Held(grant, events[i].time))
    decreases |events|
  {
    var last := |events| - 1;
    if i < last {
      var front := events[..last];
      assert Time(events[i]) == Some(events[i].time);
      assert events[last].Checked? ==> Time(events[last]) == Some(events[last].time);
      forall k | 0 <= k < |front| && Time(front[k]).Some?
        ensures Time(front[k]).value <= now
      {
        assert front[k] == events[k];
      }
      LatestIsHeld(lifetime, front, i, grant, now);
    }
  }

  /** Whatever has happened, a grant can be used now if and only if it is the latest issued, nothing has revoked
      it, and it is not older than its lifetime: that it is dropped lazily does not show. */
  lemma UsableIff<T>(lifetime: nat, events: seq<GrantEvent<T>>, grant: T, now: nat)
    requires Ordered(events, now)
    ensures (Usable(After(lifetime, events), lifetime, now) && After(lifetime, events).value.grant == grant)
       <==> exists i :: Stands(events, i, grant, lifetime, now)
  {
    if Usable(After(lifetime, events), lifetime, now) && After(lifetime, events).value.grant == grant {
      var i := HeldIsLatest(lifetime, events, now);
    }
    if i :| Stands(events, i, grant, lifetime, now) {
      LatestIsHeld(lifetime, events, i, grant, now);
    }
  }
}
