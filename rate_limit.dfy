/** `checkRateLimit` of `frontend/src/utils/security.js`: a fixed-window counter per key, kept
    in the browser's `localStorage` as JSON. The storage is a field of `RateLimiter`, `Date.now()`
    is the parameter `now`, and whether `localStorage` throws on reading or on writing is given
    by two flags. */
module RateLimit {
  import opened Js

  /** An entry as `JSON.parse` sees it: a window, or text it cannot parse (it throws). */
  datatype Stored = Window(count: int, resetTime: int) | Unreadable

  const Prefix: JsString := Str("rateLimit_")

  function StorageKey(key: JsString): JsString
  {
    Prefix + key
  }

  datatype Outcome = Outcome(allowed: bool, storage: map<JsString, Stored>)

  /** The window the check compares against: the stored one (or a fresh one), replaced by a
      fresh one once `now` has reached its reset time. */
  function Current(storage: map<JsString, Stored>, k: JsString, windowMs: int, now: int): (w: Stored)
    requires k !in storage || storage[k].Window?
    ensures w.Window?
    ensures now >= w.resetTime ==> w == Window(0, now + windowMs)
  {
    var d := if k in storage then storage[k] else Window(0, now + windowMs);
    if now >= d.resetTime then Window(0, now + windowMs) else d
  }

  predicate Readable(storage: map<JsString, Stored>, k: JsString)
  {
    k !in storage || storage[k].Window?
  }

  /** One call of `checkRateLimit(key, limit, windowMs)` at time `now`; any exception inside
      the `try` allows the call and leaves the storage as it was. */
  function Step(storage: map<JsString, Stored>, available: bool, writable: bool,
                key: JsString, limit: int, windowMs: int, now: int): Outcome
  {
    var k := StorageKey(key);
    if !available || !Readable(storage, k) then Outcome(true, storage)
    else
      var w := Current(storage, k, windowMs, now);
      if w.count >= limit then Outcome(false, storage)
      else if !writable then Outcome(true, storage)
      else Outcome(true, storage[k := Window(w.count + 1, w.resetTime)])
  }

  class RateLimiter {
    var storage: map<JsString, Stored>
    /** `localStorage.getItem` succeeds. */
    var available: bool
    /** `localStorage.setItem` succeeds. */
    var writable: bool

    constructor (storage: map<JsString, Stored>, available: bool, writable: bool)
      ensures this.storage == storage && this.available == available && this.writable == writable
    {
      this.storage := storage;
      this.available := available;
      this.writable := writable;
    }

    /** `checkRateLimit`. */
    method CheckRateLimit(key: JsString, limit: int, windowMs: int, now: int) returns (allowed: bool)
      modifies this
      ensures Outcome(allowed, storage) == Step(old(storage), available, writable, key, limit, windowMs, now)
      ensures available == old(available) && writable == old(writable)
    {
      var storageKey := StorageKey(key);
      if !available {
        return true;
      }
      var count: int, resetTime: int;
      if storageKey in storage {
        var stored := storage[storageKey];
        if stored.Unreadable? {
          return true;
        }
        count, resetTime := stored.count, stored.resetTime;
      } else {
        count, resetTime := 0, now + windowMs;
      }
      if now >= resetTime {
        count := 0;
        resetTime := now + windowMs;
      }
      if count >= limit {
        return false;
      }
      count := count + 1;
      if !writable {
        return true;
      }
      storage := storage[storageKey := Window(count, resetTime)];
      return true;
    }
  }

  /** Only the entry of the key can change. */
  lemma StepOtherKeys(storage: map<JsString, Stored>, available: bool, writable: bool,
                      key: JsString, limit: int, windowMs: int, now: int, other: JsString)
    requires other != StorageKey(key)
    ensures var r := Step(storage, available, writable, key, limit, windowMs, now).storage;
      (other in r <==> other in storage) && (other in storage ==> r[other] == storage[other])
  {
  }

  /** A window whose reset time has come acts as if nothing were stored: the verdict is the
      same, and so is what gets written (a new window counting one). */
  lemma StepReset(storage: map<JsString, Stored>, available: bool, writable: bool,
                  key: JsString, limit: int, windowMs: int, now: int)
    requires StorageKey(key) in storage && storage[StorageKey(key)].Window?
    requires now >= storage[StorageKey(key)].resetTime
    ensures var k := StorageKey(key);
      var cleared := storage - {k};
      var r := Step(storage, available, writable, key, limit, windowMs, now);
      var q := Step(cleared, available, writable, key, limit, windowMs, now);
      r.allowed == q.allowed
      && (q.storage == cleared ==> r.storage == storage)
      && (q.storage != cleared ==> (q.storage == cleared[k := Window(1, now + windowMs)]
        && r.storage == storage[k := Window(1, now + windowMs)]))
  {
    var k := StorageKey(key);
    assert Current(storage, k, windowMs, now) == Current(storage - {k}, k, windowMs, now);
  }

  /** With the storage working, a call is refused exactly when the current window's count has
      reached the limit; a refusal writes nothing, an accepted call writes the count plus one. */
  lemma StepCounts(storage: map<JsString, Stored>, key: JsString, limit: int, windowMs: int, now: int)
    requires Readable(storage, StorageKey(key))
    ensures var w := Current(storage, StorageKey(key), windowMs, now);
      var r := Step(storage, true, true, key, limit, windowMs, now);
      (!r.allowed <==> w.count >= limit)
      && (!r.allowed ==> r.storage == storage)
      && (r.allowed ==> r.storage == storage[StorageKey(key) := Window(w.count + 1, w.resetTime)])
  {
  }

  /** The check fails open: when reading throws or the entry does not parse, the call is
      allowed and nothing is written; when writing throws, nothing is written either. */
  lemma StepFailsOpen(storage: map<JsString, Stored>, available: bool, writable: bool,
                      key: JsString, limit: int, windowMs: int, now: int)
    ensures var r := Step(storage, available, writable, key, limit, windowMs, now);
      ((!available || !Readable(storage, StorageKey(key))) ==> r.allowed && r.storage == storage)
      && (!writable ==> r.storage == storage)
  {
  }

  /** The calls at times `nows`, in order: how many are allowed, and the storage after them. */
  function Run(storage: map<JsString, Stored>, available: bool, writable: bool,
               key: JsString, limit: int, windowMs: int, nows: seq<int>): (r: (nat, map<JsString, Stored>))
    ensures r.0 <= |nows|
    decreases |nows|
  {
    if |nows| == 0 then (0, storage)
    else
      var o := Step(storage, available, writable, key, limit, windowMs, nows[0]);
      var rest := Run(o.storage, available, writable, key, limit, windowMs, nows[1..]);
      ((if o.allowed then 1 else 0) + rest.0, rest.1)
  }

  function Min(a: int, b: int): int { if a <= b then a else b }

  /** Inside a window that already counts `c`, the remaining calls before its reset time get
      what is left of the limit. */
  lemma {:induction false} RunWithin(storage: map<JsString, Stored>, key: JsString, limit: int, windowMs: int,
                                     nows: seq<int>, c: int, resetTime: int)
    requires StorageKey(key) in storage && storage[StorageKey(key)] == Window(c, resetTime)
    requires forall i | 0 <= i < |nows| :: nows[i] < resetTime
    ensures Run(storage, true, true, key, limit, windowMs, nows).0 == Min(|nows|, if limit - c > 0 then limit - c else 0)
    decreases |nows|
  {
    if |nows| > 0 {
      var k := StorageKey(key);
      var o := Step(storage, true, true, key, limit, windowMs, nows[0]);
      assert Current(storage, k, windowMs, nows[0]) == Window(c, resetTime);
      assert forall i | 0 <= i < |nows[1..]| :: nows[1..][i] == nows[i + 1];
      if c >= limit {
        assert o.storage == storage;
        RunWithin(storage, key, limit, windowMs, nows[1..], c, resetTime);
      } else {
        assert o.storage == storage[k := Window(c + 1, resetTime)];
        RunWithin(o.storage, key, limit, windowMs, nows[1..], c + 1, resetTime);
      }
    }
  }

  /** Without a stored window and with a limit of zero or less, every call is refused. */
  lemma {:induction false} RunNoBudget(storage: map<JsString, Stored>, key: JsString, limit: int, windowMs: int,
                                       nows: seq<int>)
    requires StorageKey(key) !in storage && limit <= 0
    ensures Run(storage, true, true, key, limit, windowMs, nows).0 == 0
    decreases |nows|
  {
    if |nows| > 0 {
      var o := Step(storage, true, true, key, limit, windowMs, nows[0]);
      assert o.storage == storage;
      RunNoBudget(storage, key, limit, windowMs, nows[1..]);
    }
  }

  /** From a fresh key, of the calls made within `windowMs` of the first, exactly
      `min(calls, limit)` are allowed (none when the limit is zero or less). */
  lemma WindowBudget(storage: map<JsString, Stored>, key: JsString, limit: int, windowMs: int, nows: seq<int>)
    requires StorageKey(key) !in storage && |nows| > 0
    requires forall i | 0 <= i < |nows| :: nows[0] <= nows[i] < nows[0] + windowMs
    ensures Run(storage, true, true, key, limit, windowMs, nows).0 == Min(|nows|, if limit > 0 then limit else 0)
  {
    var k := StorageKey(key);
    var resetTime := nows[0] + windowMs;
    var o := Step(storage, true, true, key, limit, windowMs, nows[0]);
    assert Current(storage, k, windowMs, nows[0]) == Window(0, resetTime);
    assert forall i | 0 <= i < |nows[1..]| :: nows[1..][i] == nows[i + 1];
    if limit <= 0 {
      assert o.storage == storage;
      RunNoBudget(storage, key, limit, windowMs, nows[1..]);
    } else {
      assert o.storage == storage[k := Window(1, resetTime)];
      RunWithin(o.storage, key, limit, windowMs, nows[1..], 1, resetTime);
    }
  }
}
