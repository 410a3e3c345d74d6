/**
 Per-dimension EWMA statistics of request sources: one map per enabled
 dimension, changed by requests, EWMA ticks and idle-entry sweeps.
 */
module Scoring {
  import opened Wrappers
  import opened Decimal
  import opened Durations
  import Ewma

  datatype Classification = Classification(ip: string, net24: string, netV6: string, asn: nat,
                                           country: string, userClass: string, userID: string)

  /** Penalties are positive magnitudes. */
  datatype Penalty = Penalty(alpha: real, softThreshold: real, softPenalty: real,
                             hardThreshold: real, hardPenalty: real, exemptCountries: set<string>)

  datatype Config = Config(baseScores: map<string, real>, minScore: real, maxScore: real,
                           dimensions: map<string, Penalty>, divisors: map<string, real>)

  function NonEmpty(s: string): Option<string> { if s == "" then None else Some(s) }

  /** The key a request is counted under in a dimension, if the dimension applies to it. */
  function DimensionKey(dim: string, c: Classification): Option<string> {
    if dim == "ip" then NonEmpty(c.ip)
    else if dim == "ipv4_subnet" then NonEmpty(c.net24)
    else if dim == "ipv6_subnet" then NonEmpty(c.netV6)
    else if dim == "asn" then if c.asn == 0 then None else Some(FormatNat(c.asn))
    else if dim == "country" then NonEmpty(c.country)
    else if dim == "user" then NonEmpty(c.userID)
    else None
  }

  /** key is what a request is counted under in a dimension: per dimension the field it names, unless that is unknown. */
  ghost predicate CountedUnder(dim: string, key: string, c: Classification) {
    || (dim == "ip" && key == c.ip && key != "")
    || (dim == "ipv4_subnet" && key == c.net24 && key != "")
    || (dim == "ipv6_subnet" && key == c.netV6 && key != "")
    || (dim == "asn" && ParseNat(key) == Some(c.asn) && Plain(key) && c.asn != 0)
    || (dim == "country" && key == c.country && key != "")
    || (dim == "user" && key == c.userID && key != "")
  }

  lemma DimensionKeyExactly(dim: string, c: Classification, key: string)
    ensures DimensionKey(dim, c) == Some(key) <==> CountedUnder(dim, key, c)
  {
    hide FormatNat, ParseNat, Plain;
    FormatNatExactly(c.asn, key);
  }

  datatype Stats = Stats(lastSeen: int, ewma: real, pending: nat)

  type Entries = map<string, Stats>
  type Dims = map<string, Entries>

  /** What the ticks and sweeps are driven by. */
  datatype Env = Env(cfg: Config, tickInterval: int, idleTTL: int)

  // ---------- one event, one entry ----------

  datatype Event = Track(c: Classification, now: int) | Tick | Gc(now: int)

  function Counted(entry: Option<Stats>, now: int): Stats {
    match entry
    case None => Stats(now, 0.0, 1)
    case Some(x) => x.(lastSeen := now, pending := x.pending + 1)
  }

  function Ticked(env: Env, dim: string, x: Stats): Stats
    requires dim in env.cfg.dimensions && env.tickInterval > 0
  {
    x.(pending := 0,
       ewma := Ewma.Next(env.cfg.dimensions[dim].alpha, x.pending as real / Seconds(env.tickInterval), x.ewma))
  }

  predicate Idle(env: Env, x: Stats, now: int) { now - x.lastSeen > env.idleTTL }

  function EntryStep(env: Env, dim: string, key: string, entry: Option<Stats>, e: Event): Option<Stats>
    requires dim in env.cfg.dimensions && env.tickInterval > 0
  {
    match e
    case Track(c, now) => if DimensionKey(dim, c) == Some(key) then Some(Counted(entry, now)) else entry
    case Tick => if entry.Some? then Some(Ticked(env, dim, entry.value)) else None
    case Gc(now) => if entry.Some? && Idle(env, entry.value, now) then None else entry
  }

  function Lookup(dims: Dims, dim: string, key: string): Option<Stats> {
    if dim in dims && key in dims[dim] then Some(dims[dim][key]) else None
  }

  /** The whole state changes entry by entry. */
  ghost predicate StepsTo(env: Env, before: Dims, e: Event, after: Dims)
    requires env.tickInterval > 0
  {
    && before.Keys == env.cfg.dimensions.Keys == after.Keys
    && forall dim, key :: dim in env.cfg.dimensions ==>
         Lookup(after, dim, key) == EntryStep(env, dim, key, Lookup(before, dim, key), e)
  }

  /** A request changes exactly the entries it is counted under: seen now, one more request pending, the average as
      it was. */
  lemma TrackedExactly(env: Env, before: Dims, c: Classification, now: int, after: Dims, dim: string, key: string)
    requires env.tickInterval > 0 && StepsTo(env, before, Track(c, now), after) && dim in env.cfg.dimensions
    ensures CountedUnder(dim, key, c) ==>
              Lookup(after, dim, key) ==
              match Lookup(before, dim, key)
              case None => Some(Stats(now, 0.0, 1))
              case Some(x) => Some(Stats(now, x.ewma, x.pending + 1))
    ensures !CountedUnder(dim, key, c) ==> Lookup(after, dim, key) == Lookup(before, dim, key)
  {
    hide DimensionKey, CountedUnder;
    DimensionKeyExactly(dim, c, key);
  }

  /** A tick folds the pending requests per second into the average and starts counting anew. */
  lemma TickedExactly(env: Env, before: Dims, after: Dims, dim: string, key: string)
    requires env.tickInterval > 0 && StepsTo(env, before, Tick, after) && dim in env.cfg.dimensions
    ensures Lookup(after, dim, key).None? <==> Lookup(before, dim, key).None?
    ensures Lookup(before, dim, key).Some? ==>
              var x, x' := Lookup(before, dim, key).value, Lookup(after, dim, key).value;
              && x'.lastSeen == x.lastSeen && x'.pending == 0
              && x'.ewma == Ewma.Next(env.cfg.dimensions[dim].alpha, x.pending as real / Seconds(env.tickInterval), x.ewma)
  {
    assert Lookup(after, dim, key) == EntryStep(env, dim, key, Lookup(before, dim, key), Tick);
  }

  class ScoringState {
    const env: Env
    var dims: Dims

    ghost predicate Valid()
      reads this
    {
      env.tickInterval > 0 && env.idleTTL > 0 && dims.Keys == env.cfg.dimensions.Keys
    }

    constructor (cfg: Config, tickInterval: int, idleTTL: int)
      ensures Valid() && env.cfg == cfg
      ensures env.tickInterval == if tickInterval <= 0 then SECOND else tickInterval
      ensures env.idleTTL == if idleTTL <= 0 then 600 * SECOND else idleTTL
      ensures forall dim, key :: Lookup(dims, dim, key) == None
    {
      env := Env(cfg, if tickInterval <= 0 then SECOND else tickInterval, if idleTTL <= 0 then 600 * SECOND else idleTTL);
      dims := map dim | dim in cfg.dimensions :: map[];
    }

    method RecordRequest(c: Classification, now: int)
      requires Valid()
      modifies `dims
      ensures Valid() && StepsTo(env, old(dims), Track(c, now), dims)
    {
      var rest := env.cfg.dimensions.Keys;
      while rest != {}
        invariant rest <= env.cfg.dimensions.Keys == dims.Keys
        invariant forall dim, key :: dim in env.cfg.dimensions ==>
                    Lookup(dims, dim, key) ==
                    if dim in rest then Lookup(old(dims), dim, key)
                    else EntryStep(env, dim, key, Lookup(old(dims), dim, key), Track(c, now))
        decreases |rest|
      {
        var dim :| dim in rest;
        var key := DimensionKey(dim, c);
        if key.Some? {
          var entry := Counted(Lookup(dims, dim, key.value), now);
          dims := dims[dim := dims[dim][key.value := entry]];
        }
        rest := rest - {dim};
      }
    }

    method TickAll()
      requires Valid()
      modifies `dims
      ensures Valid() && StepsTo(env, old(dims), Tick, dims)
    {
      var rest := env.cfg.dimensions.Keys;
      while rest != {}
        invariant rest <= env.cfg.dimensions.Keys == dims.Keys
        invariant forall dim, key :: dim in env.cfg.dimensions ==>
                    Lookup(dims, dim, key) ==
                    if dim in rest then Lookup(old(dims), dim, key)
                    else EntryStep(env, dim, key, Lookup(old(dims), dim, key), Tick)
        decreases |rest|
      {
        var dim :| dim in rest;
        var entries := TickEntries(dim, dims[dim]);
        dims := dims[dim := entries];
        rest := rest - {dim};
      }
    }

    method TickEntries(dim: string, entries: Entries) returns (r: Entries)
      requires Valid() && dim in env.cfg.dimensions
      ensures r.Keys == entries.Keys && forall key :: key in entries ==> r[key] == Ticked(env, dim, entries[key])
    {
      r := entries;
      var rest := entries.Keys;
      while rest != {}
        invariant rest <= entries.Keys == r.Keys
        invariant forall key :: key in entries ==>
                    r[key] == if key in rest then entries[key] else Ticked(env, dim, entries[key])
        decreases |rest|
      {
        var key :| key in rest;
        r := r[key := Ticked(env, dim, r[key])];
        rest := rest - {key};
      }
    }

    method Sweep(now: int)
      requires Valid()
      modifies `dims
      ensures Valid() && StepsTo(env, old(dims), Gc(now), dims)
    {
      var rest := dims.Keys;
      while rest != {}
        invariant rest <= env.cfg.dimensions.Keys == dims.Keys
        invariant forall dim, key :: dim in env.cfg.dimensions ==>
                    Lookup(dims, dim, key) ==
                    if dim in rest then Lookup(old(dims), dim, key)
                    else EntryStep(env, dim, key, Lookup(old(dims), dim, key), Gc(now))
        decreases |rest|
      {
        var dim :| dim in rest;
        var entries := SweepEntries(dims[dim], now);
        dims := dims[dim := entries];
        rest := rest - {dim};
      }
    }

    method SweepEntries(entries: Entries, now: int) returns (r: Entries)
      requires Valid()
      ensures forall key :: key in r <==> key in entries && !Idle(env, entries[key], now)
      ensures forall key :: key in r ==> r[key] == entries[key]
    {
      r := entries;
      var rest := entries.Keys;
      while rest != {}
        invariant rest <= entries.Keys
        invariant forall key :: key in r <==> key in entries && (key in rest || !Idle(env, entries[key], now))
        invariant forall key :: key in r ==> r[key] == entries[key]
        decreases |rest|
      {
        var key :| key in rest;
        if Idle(env, r[key], now) {
          r := r - {key};
        }
        rest := rest - {key};
      }
    }
  }
}
