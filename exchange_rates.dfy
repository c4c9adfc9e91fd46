/** The exchange-rate table with its process-wide cache (models.py:13-58, 96-101). */
module ExchangeRates {
  import opened Outcomes
  import opened Text
  import opened Currencies
  import Formatting

  // ---------------------------------------------------------------------------
  // Storage queries: the table's rows are a sequence, in query order
  // ---------------------------------------------------------------------------

  predicate IsActive(r: Record, code: string) { r.active && r.isoCode == code }

  /** `objects.filter(iso_code=code, active=True)` */
  function ActiveMatches(storage: seq<Record>, code: string): (ms: seq<Record>)
    ensures |ms| <= |storage|
    ensures forall r :: r in ms <==> r in storage && IsActive(r, code)
  {
    if storage == [] then []
    else (if IsActive(storage[0], code) then [storage[0]] else []) + ActiveMatches(storage[1..], code)
  }

  /** One active row per position: at most one position holds an active row with `code`. */
  predicate UniqueMatch(storage: seq<Record>, code: string)
  {
    forall i, j :: 0 <= i < |storage| && 0 <= j < |storage| && IsActive(storage[i], code) && IsActive(storage[j], code) ==> i == j
  }

  lemma {:induction false} MatchCount(storage: seq<Record>, code: string)
    ensures |ActiveMatches(storage, code)| == 1 ==> UniqueMatch(storage, code)
    ensures |ActiveMatches(storage, code)| > 1 ==> !UniqueMatch(storage, code)
  {
    if storage != [] {
      MatchCount(storage[1..], code);
      if IsActive(storage[0], code) {
        MatchCountActiveHead(storage, code);
      } else {
        MatchCountInactiveHead(storage, code);
      }
    }
  }

  /** An active first row is unique exactly when the rest has no active row. */
  lemma MatchCountActiveHead(storage: seq<Record>, code: string)
    requires storage != [] && IsActive(storage[0], code)
    ensures |ActiveMatches(storage, code)| == 1 ==> UniqueMatch(storage, code)
    ensures |ActiveMatches(storage, code)| > 1 ==> !UniqueMatch(storage, code)
  {
    var rest := storage[1..];
    assert ActiveMatches(storage, code) == [storage[0]] + ActiveMatches(rest, code);
    if |ActiveMatches(rest, code)| > 0 {
      var r := ActiveMatches(rest, code)[0];
      assert r in ActiveMatches(rest, code);
      assert r in rest;
      var j :| 0 <= j < |rest| && rest[j] == r;
      assert storage[j + 1] == r;
    } else {
      forall j | 0 <= j < |rest| ensures !IsActive(rest[j], code) {
        assert rest[j] in rest;
      }
    }
  }

  /** An inactive first row changes neither the count nor uniqueness. */
  lemma MatchCountInactiveHead(storage: seq<Record>, code: string)
    requires storage != [] && !IsActive(storage[0], code)
    requires |ActiveMatches(storage[1..], code)| == 1 ==> UniqueMatch(storage[1..], code)
    requires |ActiveMatches(storage[1..], code)| > 1 ==> !UniqueMatch(storage[1..], code)
    ensures |ActiveMatches(storage, code)| == 1 ==> UniqueMatch(storage, code)
    ensures |ActiveMatches(storage, code)| > 1 ==> !UniqueMatch(storage, code)
  {
    assert |ActiveMatches(storage, code)| == |ActiveMatches(storage[1..], code)|;
    UniqueSkip(storage, code);
  }

  lemma UniqueSkip(storage: seq<Record>, code: string)
    requires storage != [] && !IsActive(storage[0], code)
    ensures UniqueMatch(storage, code) <==> UniqueMatch(storage[1..], code)
  {
    var rest := storage[1..];
    assert forall i :: 0 <= i < |rest| ==> rest[i] == storage[i + 1];
    if !UniqueMatch(rest, code) {
      var i, j :| 0 <= i < |rest| && 0 <= j < |rest| && IsActive(rest[i], code) && IsActive(rest[j], code) && i != j;
      assert IsActive(storage[i + 1], code) && IsActive(storage[j + 1], code);
    } else {
      forall i, j | 0 <= i < |storage| && 0 <= j < |storage| && IsActive(storage[i], code) && IsActive(storage[j], code)
        ensures i == j
      {
        assert i > 0 && j > 0;
        assert IsActive(rest[i - 1], code) && IsActive(rest[j - 1], code);
      }
    }
  }

  /** `objects.get(iso_code=code, active=True)`: the one active row with that code, or
      an error when there is none or more than one. */
  function Get(storage: seq<Record>, code: string): (r: Result<Record>)
    ensures r == Err(NotFound(code)) <==> forall x :: x in storage ==> !IsActive(x, code)
    ensures r.Ok? ==> r.value in storage && IsActive(r.value, code) && UniqueMatch(storage, code)
    ensures r.Err? ==> r == Err(NotFound(code)) || (r == Err(MultipleFound(code)) && !UniqueMatch(storage, code))
  {
    var ms := ActiveMatches(storage, code);
    MatchCount(storage, code);
    if |ms| == 0 then Err(NotFound(code))
    else if |ms| > 1 then
      assert ms[0] in storage;
      Err(MultipleFound(code))
    else
      assert ms[0] in ms;
      Ok(ms[0])
  }

  // ---------------------------------------------------------------------------
  // The cache as a value, and one call of get_exchange_rate_item on it
  // ---------------------------------------------------------------------------

  /** `_ExchangeRateCacher.items` (None until the first cached lookup) and `recache_at`,
      with time in whole minutes. */
  datatype CacheState = CacheState(items: Option<map<string, Record>>, recacheAt: Option<int>)

  const Empty: CacheState := CacheState(None, None)

  /** `items[row.iso_code] = row` for every active row, in order. */
  function MergeActive(m: map<string, Record>, rows: seq<Record>): map<string, Record>
    decreases |rows|
  {
    if rows == [] then m
    else
      var prev := MergeActive(m, rows[..|rows| - 1]);
      var last := rows[|rows| - 1];
      if last.active then prev[last.isoCode := last] else prev
  }

  /** The last active row with `code`, the one whose assignment survives the merge. */
  function LastActive(rows: seq<Record>, code: string): (r: Option<Record>)
    decreases |rows|
    ensures r.Some? ==> r.value in rows && IsActive(r.value, code)
    ensures r.Some? ==> exists i :: 0 <= i < |rows| && rows[i] == r.value && NoneActiveAfter(rows, code, i)
    ensures r.None? <==> forall x :: x in rows ==> !IsActive(x, code)
  {
    if rows == [] then None
    else if IsActive(rows[|rows| - 1], code) then
      assert NoneActiveAfter(rows, code, |rows| - 1);
      Some(rows[|rows| - 1])
    else
      var front := rows[..|rows| - 1];
      var r := LastActive(front, code);
      assert forall x :: x in rows ==> x in front || x == rows[|rows| - 1];
      if r.Some? then
        var i :| 0 <= i < |front| && front[i] == r.value && NoneActiveAfter(front, code, i);
        assert rows[i] == r.value;
        assert NoneActiveAfter(rows, code, i) by {
          forall j | i < j < |rows| ensures !IsActive(rows[j], code) {
            if j < |front| { assert rows[j] == front[j]; }
          }
        }
        r
      else r
  }

  /** No row after position `i` is active with `code`. */
  predicate NoneActiveAfter(rows: seq<Record>, code: string, i: nat)
  {
    forall j :: i < j < |rows| ==> !IsActive(rows[j], code)
  }

  /** What the merge leaves under each key: the last active row with that code, or the
      old entry when no active row has it. */
  lemma {:induction false} MergeActiveAt(m: map<string, Record>, rows: seq<Record>, k: string)
    ensures k in MergeActive(m, rows) <==> k in m || LastActive(rows, k).Some?
    ensures k in MergeActive(m, rows) ==>
      MergeActive(m, rows)[k] == if LastActive(rows, k).Some? then LastActive(rows, k).value else m[k]
    decreases |rows|
  {
    if rows != [] {
      MergeActiveAt(m, rows[..|rows| - 1], k);
    }
  }

  /** The reload test of models.py:51 as written: the code is missing, or the reload
      time is set and still in the future. */
  predicate ReloadDue(items: map<string, Record>, recacheAt: Option<int>, code: string, now: int)
  {
    code !in items || (recacheAt.Some? && recacheAt.value > now)
  }

  /** The state after the lazy initialisation of models.py:45-50. */
  function Initialized(s: CacheState, now: int, settings: Settings): (t: CacheState)
    ensures t.items.Some?
    ensures s.items.None? && settings.cacheDurationMinutes > 0 ==> t == CacheState(Some(map[]), Some(now - 1))
    ensures s.items.None? && settings.cacheDurationMinutes <= 0 ==> t == CacheState(Some(map[]), s.recacheAt)
    ensures s.items.Some? ==> t == s
  {
    if s.items.None? then
      CacheState(Some(map[]), if settings.cacheDurationMinutes > 0 then Some(now - 1) else s.recacheAt)
    else s
  }

  /** One call of `get_exchange_rate_item(code)` at time `now`: the new cache and the
      result (models.py:41-58). */
  function Lookup(s: CacheState, code: string, now: int, storage: seq<Record>, settings: Settings): (CacheState, Result<Record>)
  {
    var c := Upper(code);
    if !settings.cacheExchange then (s, Get(storage, c))
    else
      var s1 := Initialized(s, now, settings);
      var items1 := s1.items.value;
      var s2 :=
        if ReloadDue(items1, s1.recacheAt, c, now) then
          CacheState(Some(MergeActive(items1, storage)),
                     if settings.cacheDurationMinutes > 0 then Some(now + settings.cacheDurationMinutes) else s1.recacheAt)
        else s1;
      if c in s2.items.value then (s2, Ok(s2.items.value[c])) else (s2, Get(storage, c))
  }

  /** Whether the call reloads the cache from storage. */
  predicate Reloads(s: CacheState, code: string, now: int, settings: Settings)
  {
    var s1 := Initialized(s, now, settings);
    settings.cacheExchange && ReloadDue(s1.items.value, s1.recacheAt, Upper(code), now)
  }

  /** Every cached entry is an active row filed under its own code. */
  predicate WellFormed(s: CacheState)
  {
    s.items.Some? ==> forall k :: k in s.items.value ==> IsActive(s.items.value[k], k)
  }

  // ---------------------------------------------------------------------------
  // Properties of one lookup
  // ---------------------------------------------------------------------------

  /** With caching off the cache is not touched and the row comes from storage. */
  lemma LookupUncached(s: CacheState, code: string, now: int, storage: seq<Record>, settings: Settings)
    requires !settings.cacheExchange
    ensures Lookup(s, code, now, storage, settings) == (s, Get(storage, Upper(code)))
  {
  }

  /** With caching on, a reload happens exactly when the code is missing or the reload time
      lies in the future; a reload merges every active row into the cache, and without one
      the (initialised) cache is left as it is. */
  lemma LookupReloadRule(s: CacheState, code: string, now: int, storage: seq<Record>, settings: Settings)
    requires settings.cacheExchange && s.items.Some?
    ensures Reloads(s, code, now, settings) <==>
      Upper(code) !in s.items.value || (s.recacheAt.Some? && s.recacheAt.value > now)
    ensures Reloads(s, code, now, settings) ==>
      Lookup(s, code, now, storage, settings).0.items == Some(MergeActive(s.items.value, storage))
    ensures !Reloads(s, code, now, settings) ==> Lookup(s, code, now, storage, settings).0 == s
  {
  }

  /** The cached key set only grows, and an entry changes only when some active row carries
      its code. */
  lemma {:induction false} LookupKeysGrow(s: CacheState, code: string, now: int, storage: seq<Record>, settings: Settings, k: string)
    requires settings.cacheExchange
    ensures Lookup(s, code, now, storage, settings).0.items.Some?
    ensures s.items.Some? && k in s.items.value ==> k in Lookup(s, code, now, storage, settings).0.items.value
    ensures s.items.Some? && k in s.items.value && LastActive(storage, k).None? ==>
      Lookup(s, code, now, storage, settings).0.items.value[k] == s.items.value[k]
  {
    var s1 := Initialized(s, now, settings);
    MergeActiveAt(s1.items.value, storage, k);
  }

  /** `recache_at` is only ever set to now + duration (or now - 1 on initialisation) and only
      when the duration is positive; otherwise it is left as it was. */
  lemma LookupRecacheAt(s: CacheState, code: string, now: int, storage: seq<Record>, settings: Settings)
    ensures var t := Lookup(s, code, now, storage, settings).0;
      settings.cacheDurationMinutes <= 0 ==> t.recacheAt == s.recacheAt
    ensures var t := Lookup(s, code, now, storage, settings).0;
      settings.cacheExchange && settings.cacheDurationMinutes > 0 ==>
        t.recacheAt == (if Reloads(s, code, now, settings) then Some(now + settings.cacheDurationMinutes) else s.recacheAt)
  {
  }

  /** With caching on, the first lookup always loads the whole table. */
  lemma FirstLookupLoads(code: string, now: int, storage: seq<Record>, settings: Settings)
    requires settings.cacheExchange
    ensures Reloads(Empty, code, now, settings)
    ensures Lookup(Empty, code, now, storage, settings).0 ==
      CacheState(Some(MergeActive(map[], storage)),
                 if settings.cacheDurationMinutes > 0 then Some(now + settings.cacheDurationMinutes) else None)
  {
  }

  /** With caching on, a lookup returns the cached entry whenever the code is cached after the
      reload step; a hit never raises MultipleObjectsReturned, and a miss after a reload is
      always NotFound, because the reload has merged every active row with that code. */
  lemma {:induction false} LookupResult(s: CacheState, code: string, now: int, storage: seq<Record>, settings: Settings)
    requires settings.cacheExchange
    ensures var (t, r) := Lookup(s, code, now, storage, settings);
      (Upper(code) in t.items.value ==> r == Ok(t.items.value[Upper(code)])) &&
      (Upper(code) !in t.items.value ==> r == Get(storage, Upper(code)) && r == Err(NotFound(Upper(code))))
    ensures var (t, r) := Lookup(s, code, now, storage, settings);
      Reloads(s, code, now, settings) && LastActive(storage, Upper(code)).Some? ==>
        r == Ok(LastActive(storage, Upper(code)).value)
  {
    var c := Upper(code);
    var s1 := Initialized(s, now, settings);
    MergeActiveAt(s1.items.value, storage, c);
  }

  /** The cache stays well formed, and every successful lookup yields an active row with the
      upper-cased code. */
  lemma {:induction false} LookupWellFormed(s: CacheState, code: string, now: int, storage: seq<Record>, settings: Settings)
    requires WellFormed(s)
    ensures WellFormed(Lookup(s, code, now, storage, settings).0)
    ensures var r := Lookup(s, code, now, storage, settings).1;
      r.Ok? ==> IsActive(r.value, Upper(code))
  {
    if settings.cacheExchange {
      var s1 := Initialized(s, now, settings);
      forall k | k in MergeActive(s1.items.value, storage)
        ensures IsActive(MergeActive(s1.items.value, storage)[k], k)
      {
        MergeActiveAt(s1.items.value, storage, k);
      }
    }
  }

  // ---------------------------------------------------------------------------
  // The reload condition over many calls
  // ---------------------------------------------------------------------------

  datatype Call = Call(code: string, now: int)

  /** The cache after a series of lookups against the same storage. */
  function Run(s: CacheState, calls: seq<Call>, storage: seq<Record>, settings: Settings): CacheState
    decreases |calls|
  {
    if calls == [] then s
    else Run(Lookup(s, calls[0].code, calls[0].now, storage, settings).0, calls[1..], storage, settings)
  }

  /** With a duration of zero or less, `recache_at` keeps its value forever: starting from an
      empty cache it stays None, so only a missing code ever causes a reload. */
  lemma {:induction false} NoDurationNeverExpires(s: CacheState, calls: seq<Call>, storage: seq<Record>, settings: Settings)
    requires settings.cacheDurationMinutes <= 0
    ensures Run(s, calls, storage, settings).recacheAt == s.recacheAt
    decreases |calls|
  {
    if calls != [] {
      LookupRecacheAt(s, calls[0].code, calls[0].now, storage, settings);
      NoDurationNeverExpires(Lookup(s, calls[0].code, calls[0].now, storage, settings).0, calls[1..], storage, settings);
    }
  }

  /** While the reload time lies in the future every call reloads, even for a cached code. */
  lemma ReloadsWhileTtlPending(s: CacheState, code: string, now: int, settings: Settings)
    requires settings.cacheExchange && s.items.Some?
    requires s.recacheAt.Some? && s.recacheAt.value > now
    ensures Reloads(s, code, now, settings)
  {
  }

  /** A call at or after `since` whose code is cached. */
  predicate CachedLater(s: CacheState, call: Call, since: int)
    requires s.items.Some?
  {
    Upper(call.code) in s.items.value && call.now >= since
  }

  /** Once the reload time has passed (or was never set), calls for cached codes never reload
      again: the cache is frozen, however stale the stored rates become. */
  lemma {:induction false} FrozenAfterTtl(s: CacheState, calls: seq<Call>, storage: seq<Record>, settings: Settings, since: int)
    requires settings.cacheExchange && s.items.Some?
    requires s.recacheAt.None? || s.recacheAt.value <= since
    requires forall i :: 0 <= i < |calls| ==> CachedLater(s, calls[i], since)
    ensures Run(s, calls, storage, settings) == s
    decreases |calls|
  {
    if calls != [] {
      assert CachedLater(s, calls[0], since);
      assert !Reloads(s, calls[0].code, calls[0].now, settings);
      assert Lookup(s, calls[0].code, calls[0].now, storage, settings).0 == s;
      forall i | 0 <= i < |calls[1..]| ensures CachedLater(s, calls[1..][i], since) {
        assert calls[1..][i] == calls[i + 1];
      }
      FrozenAfterTtl(s, calls[1..], storage, settings, since);
    }
  }

  // ---------------------------------------------------------------------------
  // The process-wide cache and the table's lookups (models.py:13-15, 35-58, 96-101)
  // ---------------------------------------------------------------------------

  /** `_ExchangeRateCacher`: class-level state shared by every lookup. */
  class ExchangeRateCacher {
    var items: Option<map<string, Record>>
    var recacheAt: Option<int>

    constructor ()
      ensures State() == Empty
    {
      items := None;
      recacheAt := None;
    }

    function State(): CacheState
      reads this
    {
      CacheState(items, recacheAt)
    }
  }

  /** `CurrencyExchangeRate.get_exchange_rate_item(code)` at time `now`. */
  method GetExchangeRateItem(cache: ExchangeRateCacher, code: string, now: int, storage: seq<Record>, settings: Settings)
    returns (r: Result<Record>)
    modifies cache
    ensures (cache.State(), r) == Lookup(old(cache.State()), code, now, storage, settings)
  {
    var c := Upper(code);
    if settings.cacheExchange {
      if cache.items.None? {
        cache.items := Some(map[]);
        if settings.cacheDurationMinutes > 0 {
          cache.recacheAt := Some(now - 1);
        }
      }
      ghost var s1 := cache.State();
      if c !in cache.items.value || (cache.recacheAt.Some? && cache.recacheAt.value > now) {
        var i := 0;
        while i < |storage|
          invariant 0 <= i <= |storage|
          invariant cache.items == Some(MergeActive(s1.items.value, storage[..i]))
          invariant cache.recacheAt == s1.recacheAt
        {
          var item := storage[i];
          assert storage[..i + 1][..i] == storage[..i];
          if item.active {
            cache.items := Some(cache.items.value[item.isoCode := item]);
          }
          i := i + 1;
        }
        assert storage[..|storage|] == storage;
        if settings.cacheDurationMinutes > 0 {
          cache.recacheAt := Some(now + settings.cacheDurationMinutes);
        }
      }
      if c in cache.items.value {
        return Ok(cache.items.value[c]);
      }
    }
    r := Get(storage, c);
  }

  /** `CurrencyExchangeRate.get_exchange_rate(code)`: the rate of the looked-up row. */
  method GetExchangeRate(cache: ExchangeRateCacher, code: string, now: int, storage: seq<Record>, settings: Settings)
    returns (r: Result<real>)
    modifies cache
    ensures var (t, item) := Lookup(old(cache.State()), code, now, storage, settings);
      cache.State() == t && r == (if item.Ok? then Ok(item.value.exchangeRate) else Err(item.error))
  {
    var item := GetExchangeRateItem(cache, code, now, storage, settings);
    r := if item.Ok? then Ok(item.value.exchangeRate) else Err(item.error);
  }

  /** `CurrencyExchangeRate.format(amount, code)` for a non-negative amount. */
  method Format(cache: ExchangeRateCacher, amount: real, code: string, now: int, storage: seq<Record>, settings: Settings)
    returns (r: Result<string>)
    requires amount >= 0.0
    modifies cache
    ensures var (t, item) := Lookup(old(cache.State()), code, now, storage, settings);
      cache.State() == t && r == (if item.Ok? then Ok(Formatting.FormatAmount(amount, item.value)) else Err(item.error))
  {
    var item := GetExchangeRateItem(cache, code, now, storage, settings);
    r := if item.Ok? then Ok(Formatting.FormatAmount(amount, item.value)) else Err(item.error);
  }
}
