/**
The in-process identity cache of pkg/service/identity_resolver.go and the configuration
that caps its time to live. Times and durations are nanoseconds.
 */
module IdentityCache {
  import opened Authorization
  import opened Common

  type Sub = string

  const SECOND := 1_000_000_000
  const DEFAULT_TTL := 30 * SECOND
  const MAX_TTL := 60 * SECOND

  datatype Entry = Entry(user: UserId, privs: set<Key>, expires: int)

  /** The cache as a value. */
  datatype Contents = Contents(entries: map<Sub, Entry>, ttl: int)

  function Fresh(c: Contents, sub: Sub, now: int): Option<Entry> {
    if sub in c.entries && now < c.entries[sub].expires then Some(c.entries[sub]) else None
  }

  /** Reading an expired entry deletes it. */
  function AfterGet(c: Contents, sub: Sub, now: int): Contents {
    if Fresh(c, sub, now).None? then c.(entries := c.entries - {sub}) else c
  }

  function AfterSet(c: Contents, sub: Sub, user: UserId, privs: set<Key>, now: int): Contents {
    c.(entries := c.entries[sub := Entry(user, privs, now + c.ttl)])
  }

  function EffectiveTTL(d: int): int {
    if d <= 0 then DEFAULT_TTL else d
  }

  /** What is stored is found for exactly one time to live, and the last entry stored under a subject wins. */
  lemma StoredIsFound(c: Contents, sub: Sub, user: UserId, privs: set<Key>, now: int, later: int)
    ensures var hit := Fresh(AfterSet(c, sub, user, privs, now), sub, later);
      && (hit.Some? <==> later < now + c.ttl)
      && (hit.Some? ==> hit.value.user == user && hit.value.privs == privs)
  {
  }

  /** Storing or looking up one subject never changes what is found for another, at any time. */
  lemma OthersUndisturbed(c: Contents, sub: Sub, user: UserId, privs: set<Key>, now: int, other: Sub, at: int)
    requires other != sub
    ensures Fresh(AfterSet(c, sub, user, privs, now), other, at) == Fresh(c, other, at) == Fresh(AfterGet(c, sub, now), other, at)
  {
  }

  /** Looking up finds the same as before, except that an expired entry is gone for good, even if the clock steps back. */
  lemma LookedUpTwice(c: Contents, sub: Sub, now: int, at: int)
    ensures Fresh(AfterGet(c, sub, now), sub, at) == if Fresh(c, sub, now).Some? then Fresh(c, sub, at) else None
    ensures AfterGet(AfterGet(c, sub, now), sub, now) == AfterGet(c, sub, now)
  {
    assert c.entries - {sub} - {sub} == c.entries - {sub};
  }

  class Cache {
    var entries: map<Sub, Entry>
    var ttl: int

    function Value(): Contents
      reads this
    {
      Contents(entries, ttl)
    }

    constructor ()
      ensures Value() == Contents(map[], DEFAULT_TTL)
    {
      entries, ttl := map[], DEFAULT_TTL;
    }

    method Get(sub: Sub, now: int) returns (hit: Option<Entry>)
      modifies this
      ensures hit == Fresh(old(Value()), sub, now)
      ensures Value() == AfterGet(old(Value()), sub, now)
    {
      if sub !in entries {
        assert entries - {sub} == entries;
        return None;
      }
      var e := entries[sub];
      if !(now < e.expires) {
        entries := entries - {sub};
        return None;
      }
      return Some(e);
    }

    method Set(sub: Sub, user: UserId, privs: set<Key>, now: int)
      modifies this
      ensures Value() == AfterSet(old(Value()), sub, user, privs, now)
    {
      entries := entries[sub := Entry(user, privs, now + ttl)];
    }

    method InvalidateAll()
      modifies this
      ensures Value() == Contents(map[], old(ttl))
    {
      entries := map[];
    }

    method SetTTL(d: int)
      modifies this
      ensures Value() == Contents(old(entries), EffectiveTTL(d)) && ttl > 0
    {
      var chosen := d;
      if chosen <= 0 { chosen := DEFAULT_TTL; }
      ttl := chosen;
    }
  }

  /** The loader's defaulting of core.auth: None is a missing issuer or audience. */
  method ApplyAuthDefaults(issuer: string, audience: string, configured: int) returns (ttl: Option<int>)
    ensures ttl.None? <==> issuer == "" || audience == ""
    ensures ttl.Some? ==> 0 < ttl.value <= MAX_TTL && EffectiveTTL(ttl.value) == ttl.value
    ensures ttl.Some? && 0 < configured <= MAX_TTL ==> ttl.value == configured
    ensures ttl.Some? && configured <= 0 ==> ttl.value == DEFAULT_TTL
    ensures ttl.Some? && configured > MAX_TTL ==> ttl.value == MAX_TTL
  {
    if issuer == "" || audience == "" { return None; }
    var chosen := configured;
    if chosen <= 0 {
      chosen := DEFAULT_TTL;
    } else if chosen > MAX_TTL {
      chosen := MAX_TTL;
    }
    return Some(chosen);
  }
}
