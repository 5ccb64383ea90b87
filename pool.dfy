/**
 * The per-template problem pool and the token store, both kept in Redis by the
 * application (`refill_problem_pool`, `ensure_problem_pool`, `fetch_problem_from_pool`,
 * `generate_and_cache_problem`, `prewarm_pools`, `cache_problem_with_token`,
 * `get_problem_by_token`).
 *
 * Redis is modelled single-threaded and in memory by the class `Store`: one list per
 * template id and one keyed record per token, with an explicit clock. The list is kept
 * in Redis order: index 0 is the head that `lpush` writes, the last index is the tail
 * that `rpop` reads. `Queue` is the same list oldest first, which is the order in which
 * problems are served.
 *
 * The generator is an oracle `gen`: `gen(k)` is the result of the k-th call of
 * `generate_problem_from_template` made by one operation (None when it failed).
 * The fresh token (`uuid.uuid4().hex`) is a parameter.
 */
module ProblemPool {
  import opened Wrappers
  import opened Generator
  import opened Dict

  const POOL_TARGET: nat := 50
  const POOL_LOW_WATER: nat := 25
  const POOL_REFILL_BATCH: nat := 10
  const PROBLEM_TTL_SECONDS: nat := 900

  /** A value stored in Redis: the JSON text of an instance, or text that does not decode. */
  datatype Payload = Encoded(inst: Instance) | Corrupt

  /** A token key: its value and the clock reading at which it expires. */
  datatype TokenRecord = TokenRecord(payload: Payload, expiry: int)

  type Oracle = nat -> Option<Instance>

  /** The sequence in reverse order. */
  function Reverse<T>(s: seq<T>): (r: seq<T>)
    ensures |r| == |s|
  {
    if s == [] then [] else Reverse(s[1..]) + [s[0]]
  }

  /** `lpush` puts the new entry at the back of the queue. */
  lemma ReversePush<T>(x: T, s: seq<T>)
    ensures Reverse([x] + s) == Reverse(s) + [x]
  {
    assert ([x] + s)[1..] == s;
  }

  /** `rpop` takes the front of the queue and leaves the rest of it in order. */
  lemma {:induction false} ReversePop<T>(s: seq<T>)
    requires s != []
    ensures Reverse(s)[0] == s[|s| - 1]
    ensures Reverse(s[..|s| - 1]) == Reverse(s)[1..]
  {
    var t := s[1..];
    if t != [] {
      ReversePop(t);
      assert s[..|s| - 1] == [s[0]] + t[..|t| - 1];
      assert s[..|s| - 1][1..] == t[..|t| - 1];
    }
  }

  /** The instances returned by the successful calls among the first `n` calls of `gen`,
    * in call order. */
  function Successes(gen: Oracle, n: nat): (r: seq<Instance>)
    ensures |r| <= n
  {
    if n == 0 then []
    else Successes(gen, n - 1) + (if gen(n - 1).Some? then [gen(n - 1).value] else [])
  }

  /** When every call succeeds, every call contributes an instance. */
  lemma {:induction false} AllSucceed(gen: Oracle, n: nat)
    requires forall k :: 0 <= k < n ==> gen(k).Some?
    ensures |Successes(gen, n)| == n
  {
    if n > 0 {
      AllSucceed(gen, n - 1);
    }
  }

  /** The Redis values `json.dumps` writes for a run of instances. */
  function Encodings(xs: seq<Instance>): (r: seq<Payload>)
    ensures |r| == |xs|
    ensures forall i :: 0 <= i < |xs| ==> r[i] == Encoded(xs[i])
  {
    if xs == [] then [] else [Encoded(xs[0])] + Encodings(xs[1..])
  }

  lemma EncodingsAppend(xs: seq<Instance>, x: Instance)
    ensures Encodings(xs + [x]) == Encodings(xs) + [Encoded(x)]
  {
  }

  /** The queue `ensure_problem_pool` leaves behind, starting from queue `q`. */
  function Replenished(q: seq<Payload>, gen: Oracle): seq<Payload>
  {
    if |q| < POOL_LOW_WATER then q + Encodings(Successes(gen, POOL_REFILL_BATCH)) else q
  }

  /** A pool at or above the low-water mark is left alone; a lower one keeps its entries
    * in front and gains at most one batch, all of it freshly generated instances. */
  lemma ReplenishedBounds(q: seq<Payload>, gen: Oracle)
    ensures var r := Replenished(q, gen);
      && |q| <= |r|
      && r[..|q|] == q
      && (|q| >= POOL_LOW_WATER ==> r == q)
      && (|q| < POOL_LOW_WATER ==> |r| <= |q| + POOL_REFILL_BATCH)
      && forall i :: |q| <= i < |r| ==> r[i].Encoded?
  {
  }

  /** Refilling never overtakes an older entry: the entry served next is the oldest one. */
  lemma ReplenishedKeepsHead(q: seq<Payload>, gen: Oracle)
    requires q != []
    ensures Replenished(q, gen) != [] && Replenished(q, gen)[0] == q[0]
  {
  }

  /** A pool is empty after replenishing only when it was empty and every call of the
    * batch failed. */
  lemma ReplenishedEmpty(q: seq<Payload>, gen: Oracle)
    ensures Replenished(q, gen) == [] <==> q == [] && Successes(gen, POOL_REFILL_BATCH) == []
  {
  }

  /** The queue `prewarm_pools` leaves behind for one template, starting from `q`. */
  function ToppedUp(q: seq<Payload>, gen: Oracle): seq<Payload>
  {
    if |q| < POOL_TARGET then q + Encodings(Successes(gen, POOL_TARGET - |q|)) else q
  }

  /** Prewarming keeps the entries already queued in front and never grows a pool past
    * the target; when every call succeeds it reaches the target exactly. */
  lemma ToppedUpBounds(q: seq<Payload>, gen: Oracle)
    ensures var r := ToppedUp(q, gen);
      && |q| <= |r|
      && r[..|q|] == q
      && (|q| >= POOL_TARGET ==> r == q)
      && (|q| < POOL_TARGET ==> |r| <= POOL_TARGET)
  {
  }

  lemma ToppedUpReachesTarget(q: seq<Payload>, gen: Oracle)
    requires forall k :: 0 <= k < POOL_TARGET ==> gen(k).Some?
    ensures |ToppedUp(q, gen)| == if |q| < POOL_TARGET then POOL_TARGET else |q|
  {
    if |q| < POOL_TARGET {
      AllSucceed(gen, POOL_TARGET - |q|);
    }
  }

  /** The Redis keys of the application: problem lists and token records. */
  class Store {
    var pools: map<int, seq<Payload>>
    var tokens: map<string, TokenRecord>
    var now: int

    constructor ()
      ensures pools == map[] && tokens == map[] && now == 0
    {
      pools := map[];
      tokens := map[];
      now := 0;
    }

    /** The list `exam:pool:<tid>`, in Redis order; a missing key reads as empty. */
    function Pool(tid: int): seq<Payload>
      reads this
    {
      if tid in pools then pools[tid] else []
    }

    /** The same list, oldest entry first. */
    function Queue(tid: int): seq<Payload>
      reads this
    {
      Reverse(Pool(tid))
    }

    /** The key `exam:problem:<token>` exists: it was written and has not expired. */
    predicate Live(token: string)
      reads this
    {
      token in tokens && now < tokens[token].expiry
    }

    /** The clock advances. */
    method Tick(seconds: nat)
      modifies this
      ensures now == old(now) + seconds
      ensures pools == old(pools) && tokens == old(tokens)
    {
      now := now + seconds;
    }

    /** `setex`: the token maps to the payload for the next `PROBLEM_TTL_SECONDS`. */
    method CacheWithToken(token: string, payload: Payload)
      modifies this
      ensures tokens == old(tokens)[token := TokenRecord(payload, now + PROBLEM_TTL_SECONDS)]
      ensures pools == old(pools) && now == old(now)
      ensures Live(token)
    {
      tokens := tokens[token := TokenRecord(payload, now + PROBLEM_TTL_SECONDS)];
    }

    /** Looks a token up. An empty, unknown or expired token gives None and changes
      * nothing. A live token has its expiry pushed to now + TTL before its value is
      * decoded, so a corrupt value is refreshed and still gives None. */
    method GetByToken(token: string) returns (r: Option<Instance>)
      modifies this
      ensures pools == old(pools) && now == old(now)
      ensures token == [] || !old(Live(token)) ==> r.None? && tokens == old(tokens)
      ensures token != [] && old(Live(token)) ==>
        tokens == old(tokens)[token := TokenRecord(old(tokens)[token].payload, now + PROBLEM_TTL_SECONDS)]
      ensures token != [] && old(Live(token)) && old(tokens)[token].payload.Encoded? ==>
        r == Some(old(tokens)[token].payload.inst)
      ensures token != [] && old(Live(token)) && old(tokens)[token].payload.Corrupt? ==> r.None?
    {
      if token == [] || !Live(token) {
        return None;
      }
      var raw := tokens[token].payload;
      tokens := tokens[token := TokenRecord(raw, now + PROBLEM_TTL_SECONDS)];
      if raw.Corrupt? {
        return None;
      }
      return Some(raw.inst);
    }

    /** `lpush`: the entry joins the back of the queue. */
    method Push(tid: int, x: Payload)
      modifies this
      ensures Queue(tid) == old(Queue(tid)) + [x]
      ensures forall other :: other != tid ==> Pool(other) == old(Pool(other))
      ensures tokens == old(tokens) && now == old(now)
    {
      ReversePush(x, Pool(tid));
      pools := pools[tid := [x] + Pool(tid)];
    }

    /** `rpop`: removes and returns the front of the queue, None when it is empty. */
    method Pop(tid: int) returns (x: Option<Payload>)
      modifies this
      ensures old(Queue(tid)) == [] ==> x.None? && pools == old(pools)
      ensures old(Queue(tid)) != [] ==> x == Some(old(Queue(tid))[0]) && Queue(tid) == old(Queue(tid))[1..]
      ensures forall other :: other != tid ==> Pool(other) == old(Pool(other))
      ensures tokens == old(tokens) && now == old(now)
    {
      var p := Pool(tid);
      if p == [] {
        return None;
      }
      ReversePop(p);
      x := Some(p[|p| - 1]);
      pools := pools[tid := p[..|p| - 1]];
    }

    /** Makes `count` generator calls and pushes each instance produced, in call order;
      * returns how many were pushed. No other list and no token is touched. */
    method Refill(tid: int, count: nat, gen: Oracle) returns (created: nat)
      modifies this
      ensures Queue(tid) == old(Queue(tid)) + Encodings(Successes(gen, count))
      ensures created == |Successes(gen, count)| && created <= count
      ensures forall other :: other != tid ==> Pool(other) == old(Pool(other))
      ensures tokens == old(tokens) && now == old(now)
    {
      created := 0;
      ghost var start := Queue(tid);
      var i := 0;
      while i < count
        invariant 0 <= i <= count
        invariant Queue(tid) == start + Encodings(Successes(gen, i))
        invariant created == |Successes(gen, i)|
        invariant forall other :: other != tid ==> Pool(other) == old(Pool(other))
        invariant tokens == old(tokens) && now == old(now)
      {
        ghost var done := Successes(gen, i);
        var problem := gen(i);
        if problem.Some? {
          assert Successes(gen, i + 1) == done + [problem.value];
          EncodingsAppend(done, problem.value);
          Push(tid, Encoded(problem.value));
          AppendAssoc(start, Encodings(done), [Encoded(problem.value)]);
          assert Queue(tid) == start + Encodings(Successes(gen, i + 1));
          created := created + 1;
        } else {
          assert Successes(gen, i + 1) == done;
        }
        i := i + 1;
      }
    }

    /** Low-water refill: one batch when the list is below `POOL_LOW_WATER`, nothing
      * otherwise. */
    method EnsurePool(tid: int, gen: Oracle)
      modifies this
      ensures Queue(tid) == Replenished(old(Queue(tid)), gen)
      ensures old(|Pool(tid)|) >= POOL_LOW_WATER ==> pools == old(pools)
      ensures forall other :: other != tid ==> Pool(other) == old(Pool(other))
      ensures tokens == old(tokens) && now == old(now)
    {
      if |Pool(tid)| < POOL_LOW_WATER {
        var created := Refill(tid, POOL_REFILL_BATCH, gen);
      }
    }

    /** Direct generation used when no pooled problem is available: the generated
      * instance, if any, is stored under the fresh token. */
    method GenerateAndCache(generated: Option<Instance>, token: string)
      returns (issued: Option<string>, problem: Option<Instance>)
      modifies this
      ensures generated.None? ==> issued.None? && problem.None? && tokens == old(tokens)
      ensures generated.Some? ==>
        issued == Some(token) && problem == generated &&
        tokens == old(tokens)[token := TokenRecord(Encoded(generated.value), now + PROBLEM_TTL_SECONDS)]
      ensures pools == old(pools) && now == old(now)
    {
      if generated.None? {
        return None, None;
      }
      CacheWithToken(token, Encoded(generated.value));
      return Some(token), generated;
    }

    /** The part of `fetch_problem_from_pool` after the refill: pops the oldest entry
      * and stores it under the fresh token. With the pool empty, `fallback` (the result
      * of a direct generator call) is stored instead. A popped entry that does not
      * decode is dropped and nothing is served. */
    method Serve(tid: int, fallback: Option<Instance>, token: string)
      returns (issued: Option<string>, problem: Option<Instance>)
      modifies this
      ensures var q := old(Queue(tid));
        q != [] ==> Queue(tid) == q[1..]
      ensures var q := old(Queue(tid));
        q != [] && q[0].Encoded? ==>
          issued == Some(token) && problem == Some(q[0].inst) &&
          tokens == old(tokens)[token := TokenRecord(q[0], now + PROBLEM_TTL_SECONDS)]
      ensures var q := old(Queue(tid));
        q != [] && q[0].Corrupt? ==> issued.None? && problem.None? && tokens == old(tokens)
      ensures var q := old(Queue(tid));
        q == [] ==>
          Queue(tid) == [] && problem == fallback &&
          (problem.None? ==> issued.None? && tokens == old(tokens)) &&
          (problem.Some? ==>
            issued == Some(token) &&
            tokens == old(tokens)[token := TokenRecord(Encoded(problem.value), now + PROBLEM_TTL_SECONDS)])
      ensures forall other :: other != tid ==> Pool(other) == old(Pool(other))
      ensures now == old(now)
    {
      var raw := Pop(tid);
      if raw.None? {
        issued, problem := GenerateAndCache(fallback, token);
        return;
      }
      if raw.value.Corrupt? {
        return None, None;
      }
      CacheWithToken(token, raw.value);
      return Some(token), Some(raw.value.inst);
    }

    /** Serves one problem of template `tid`: replenish the pool, then serve its oldest
      * entry. With the pool still empty, the call after the refill batch generates the
      * problem directly. */
    method Fetch(tid: int, gen: Oracle, token: string)
      returns (issued: Option<string>, problem: Option<Instance>)
      modifies this
      ensures var q := Replenished(old(Queue(tid)), gen);
        q != [] ==> Queue(tid) == q[1..]
      ensures var q := Replenished(old(Queue(tid)), gen);
        q != [] && q[0].Encoded? ==>
          issued == Some(token) && problem == Some(q[0].inst) &&
          tokens == old(tokens)[token := TokenRecord(q[0], now + PROBLEM_TTL_SECONDS)]
      ensures var q := Replenished(old(Queue(tid)), gen);
        q != [] && q[0].Corrupt? ==> issued.None? && problem.None? && tokens == old(tokens)
      ensures var q := Replenished(old(Queue(tid)), gen);
        q == [] ==>
          Queue(tid) == [] && problem == gen(POOL_REFILL_BATCH) &&
          (problem.None? ==> issued.None? && tokens == old(tokens)) &&
          (problem.Some? ==>
            issued == Some(token) &&
            tokens == old(tokens)[token := TokenRecord(Encoded(problem.value), now + PROBLEM_TTL_SECONDS)])
      ensures forall other :: other != tid ==> Pool(other) == old(Pool(other))
      ensures now == old(now)
    {
      EnsurePool(tid, gen);
      issued, problem := Serve(tid, gen(POOL_REFILL_BATCH), token);
    }

    /** One template of the prewarming loop: refill the missing `POOL_TARGET - size`
      * problems when the pool holds fewer than `POOL_TARGET`. */
    method TopUp(tid: int, gen: Oracle)
      modifies this
      ensures Queue(tid) == ToppedUp(old(Queue(tid)), gen)
      ensures forall other :: other != tid ==> Pool(other) == old(Pool(other))
      ensures tokens == old(tokens) && now == old(now)
    {
      var size := |Pool(tid)|;
      if size < POOL_TARGET {
        var created := Refill(tid, POOL_TARGET - size, gen);
      }
    }

    /** Start-up prewarming: tops every template's pool up to `POOL_TARGET`, one generator
      * per template. A failed database connection (`None`) changes nothing. Template ids
      * come from the primary key, so they are distinct. */
    method Prewarm(templateIds: Option<seq<int>>, gens: seq<Oracle>)
      requires templateIds.Some? ==> |gens| == |templateIds.value|
      requires templateIds.Some? ==>
        forall i, j :: 0 <= i < j < |templateIds.value| ==> templateIds.value[i] != templateIds.value[j]
      modifies this
      ensures templateIds.None? ==> pools == old(pools)
      ensures templateIds.Some? ==> forall k :: 0 <= k < |templateIds.value| ==>
        Queue(templateIds.value[k]) == ToppedUp(old(Queue(templateIds.value[k])), gens[k])
      ensures templateIds.Some? ==> forall other :: other !in templateIds.value ==>
        Pool(other) == old(Pool(other))
      ensures tokens == old(tokens) && now == old(now)
    {
      if templateIds.None? {
        return;
      }
      var ids := templateIds.value;
      var i := 0;
      while i < |ids|
        invariant 0 <= i <= |ids|
        invariant forall k :: 0 <= k < i ==> Queue(ids[k]) == ToppedUp(old(Queue(ids[k])), gens[k])
        invariant forall k :: i <= k < |ids| ==> Pool(ids[k]) == old(Pool(ids[k]))
        invariant forall other :: other !in ids ==> Pool(other) == old(Pool(other))
        invariant tokens == old(tokens) && now == old(now)
      {
        label Before:
        TopUp(ids[i], gens[i]);
        forall k | 0 <= k < |ids| && k != i
          ensures Pool(ids[k]) == old@Before(Pool(ids[k]))
        {
          assert ids[k] != ids[i];
        }
        forall k | 0 <= k < i + 1
          ensures Queue(ids[k]) == ToppedUp(old(Queue(ids[k])), gens[k])
        {
          if k < i {
            assert Queue(ids[k]) == Reverse(old@Before(Pool(ids[k])));
          }
        }
        i := i + 1;
      }
    }
  }
}
