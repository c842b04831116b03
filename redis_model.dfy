/**
 * The part of Redis the statistics manager uses, as a value: hashes of
 * fields and sets of user ids, with the semantics of `HINCRBY`, `HSET`,
 * `HGET`, `HGETALL`, `HDEL`, `SADD`, `SCARD` and `DEL`.
 *
 * Redis keeps one keyspace; here a key of type `K` names a hash or a set,
 * and `DEL` removes either. The user of the store chooses `K` (the
 * statistics manager uses a datatype of its key families, each rendering to
 * the key string it stands for). Expiry (`EXPIRE`) is not modelled.
 */
module Redis {
  import opened Wrappers

  /** A hash field: a counter, or the ISO timestamp of an instant (the text
      rendering of the timestamp is not modelled). */
  datatype HValue = IntVal(n: int) | TimeVal(t: int)

  datatype Store<K> = Store(hashes: map<K, map<string, HValue>>, sets: map<K, set<int>>)

  function Empty<K(==,!new)>(): Store<K> {
    Store(map[], map[])
  }

  /** `HGET key field`. */
  function HGet<K(==,!new)>(st: Store<K>, key: K, field: string): Option<HValue> {
    if key in st.hashes && field in st.hashes[key] then Some(st.hashes[key][field]) else None
  }

  /** `int(HGET key field or 0)` for a counter field. */
  function Count<K(==,!new)>(st: Store<K>, key: K, field: string): int {
    match HGet(st, key, field)
    case Some(IntVal(n)) => n
    case _ => 0
  }

  /** The field holds no timestamp, so `HINCRBY` applies to it. */
  predicate Numeric<K(==,!new)>(st: Store<K>, key: K, field: string) {
    !(HGet(st, key, field).Some? && HGet(st, key, field).value.TimeVal?)
  }

  function HashOf<K(==,!new)>(st: Store<K>, key: K): map<string, HValue> {
    if key in st.hashes then st.hashes[key] else map[]
  }

  /** `HSET key field value`. */
  function HSet<K(==,!new)>(st: Store<K>, key: K, field: string, v: HValue): (r: Store<K>)
    ensures HGet(r, key, field) == Some(v)
    ensures forall k: K, f :: (k != key || f != field) ==> HGet(r, k, f) == HGet(st, k, f)
    ensures r.sets == st.sets
  {
    st.(hashes := st.hashes[key := HashOf(st, key)[field := v]])
  }

  /** `HINCRBY key field delta`: a missing field counts as 0; Redis rejects the
      command on a field that does not hold an integer, leaving it alone. */
  function HIncrBy<K(==,!new)>(st: Store<K>, key: K, field: string, delta: int): (r: Store<K>)
    ensures Numeric(st, key, field) ==> HGet(r, key, field) == Some(IntVal(Count(st, key, field) + delta))
    ensures !Numeric(st, key, field) ==> r == st
    ensures forall k: K, f :: (k != key || f != field) ==> HGet(r, k, f) == HGet(st, k, f)
    ensures r.sets == st.sets
  {
    if Numeric(st, key, field) then HSet(st, key, field, IntVal(Count(st, key, field) + delta)) else st
  }

  /** `HDEL key field`. */
  function HDel<K(==,!new)>(st: Store<K>, key: K, field: string): (r: Store<K>)
    ensures HGet(r, key, field) == None
    ensures forall k: K, f :: (k != key || f != field) ==> HGet(r, k, f) == HGet(st, k, f)
    ensures r.sets == st.sets
  {
    if key in st.hashes then st.(hashes := st.hashes[key := st.hashes[key] - {field}]) else st
  }

  /** `HGETALL key`: an empty hash for a missing key. */
  function HGetAll<K(==,!new)>(st: Store<K>, key: K): (m: map<string, HValue>)
    ensures forall f :: f in m <==> HGet(st, key, f).Some?
    ensures forall f :: f in m ==> HGet(st, key, f) == Some(m[f])
  {
    HashOf(st, key)
  }

  /** `SMEMBERS key`: an empty set for a missing key. */
  function Members<K(==,!new)>(st: Store<K>, key: K): set<int> {
    if key in st.sets then st.sets[key] else {}
  }

  /** `SADD key member`. */
  function SAdd<K(==,!new)>(st: Store<K>, key: K, member: int): (r: Store<K>)
    ensures Members(r, key) == Members(st, key) + {member}
    ensures forall k: K :: k != key ==> Members(r, k) == Members(st, k)
    ensures r.hashes == st.hashes
  {
    st.(sets := st.sets[key := Members(st, key) + {member}])
  }

  /** `SCARD key`. */
  function SCard<K(==,!new)>(st: Store<K>, key: K): (n: nat)
    ensures n == |Members(st, key)|
  {
    |Members(st, key)|
  }

  /** Adding a member grows a set's cardinality by at most one, and not at
      all when it is already there. */
  lemma SAddCard<K(!new)>(st: Store<K>, key: K, member: int)
    ensures SCard(SAdd(st, key, member), key) <= SCard(st, key) + 1
    ensures member in Members(st, key) ==> SCard(SAdd(st, key, member), key) == SCard(st, key)
    ensures member !in Members(st, key) ==> SCard(SAdd(st, key, member), key) == SCard(st, key) + 1
  {
    var s := Members(st, key);
    if member in s {
      assert s + {member} == s;
    } else {
      assert |s + {member}| == |s| + 1;
    }
  }

  /** `SADD` is idempotent. */
  lemma SAddIdempotent<K(!new)>(st: Store<K>, key: K, member: int)
    ensures SAdd(SAdd(st, key, member), key, member) == SAdd(st, key, member)
  {
    var once := SAdd(st, key, member);
    assert Members(once, key) + {member} == Members(once, key);
    assert once.sets[key := Members(once, key) + {member}] == once.sets;
  }

  /** `DEL key`: the key disappears whether it named a hash or a set. */
  function Delete<K(==,!new)>(st: Store<K>, key: K): (r: Store<K>)
    ensures Members(r, key) == {} && HGetAll(r, key) == map[]
    ensures forall k: K :: k != key ==> Members(r, k) == Members(st, k)
    ensures forall k: K, f :: k != key ==> HGet(r, k, f) == HGet(st, k, f)
  {
    Store(st.hashes - {key}, st.sets - {key})
  }

  /** A command queued on a pipeline. */
  datatype Command<K> =
    | HIncrByCmd(key: K, field: string, delta: int)
    | HSetCmd(key: K, field: string, value: HValue)
    | SAddCmd(key: K, member: int)
    | ExpireCmd(key: K, seconds: int)

  /** One command's effect; `EXPIRE` sets a time to live, which this model
      does not track. */
  function Exec<K(==,!new)>(st: Store<K>, c: Command<K>): Store<K> {
    match c
    case HIncrByCmd(key, field, delta) => HIncrBy(st, key, field, delta)
    case HSetCmd(key, field, value) => HSet(st, key, field, value)
    case SAddCmd(key, member) => SAdd(st, key, member)
    case ExpireCmd(_, _) => st
  }

  /** `pipe.execute()`: the queued commands, applied in order. A command
      Redis rejects leaves the store alone and the rest still run. */
  function Execute<K(==,!new)>(st: Store<K>, cmds: seq<Command<K>>): Store<K>
    decreases |cmds|
  {
    if cmds == [] then st else Execute(Exec(st, cmds[0]), cmds[1..])
  }

  /** The command writes the field `f` of the hash `k`. */
  predicate Writes<K(==)>(c: Command<K>, k: K, f: string) {
    (c.HIncrByCmd? || c.HSetCmd?) && c.key == k && c.field == f
  }

  /** The command adds to the set `k`. */
  predicate AddsTo<K(==)>(c: Command<K>, k: K) {
    c.SAddCmd? && c.key == k
  }

  /** Commands that do not write a field leave it as it was. */
  lemma {:induction false} ExecuteKeepsField<K(!new)>(st: Store<K>, cmds: seq<Command<K>>, k: K, f: string)
    requires forall j :: 0 <= j < |cmds| ==> !Writes(cmds[j], k, f)
    ensures HGet(Execute(st, cmds), k, f) == HGet(st, k, f)
    decreases |cmds|
  {
    if cmds != [] {
      assert !Writes(cmds[0], k, f);
      ExecuteKeepsField(Exec(st, cmds[0]), cmds[1..], k, f);
    }
  }

  /** A field that exactly one command of the pipeline increments ends up
      incremented by that command's amount. */
  lemma {:induction false} ExecuteCounter<K(!new)>(st: Store<K>, cmds: seq<Command<K>>, i: nat, k: K, f: string)
    requires i < |cmds| && cmds[i].HIncrByCmd? && cmds[i].key == k && cmds[i].field == f
    requires forall j :: 0 <= j < |cmds| && j != i ==> !Writes(cmds[j], k, f)
    requires Numeric(st, k, f)
    ensures HGet(Execute(st, cmds), k, f) == Some(IntVal(Count(st, k, f) + cmds[i].delta))
    decreases |cmds|
  {
    var next := Exec(st, cmds[0]);
    if i == 0 {
      ExecuteKeepsField(next, cmds[1..], k, f);
    } else {
      assert !Writes(cmds[0], k, f);
      assert HGet(next, k, f) == HGet(st, k, f);
      ExecuteCounter(next, cmds[1..], i - 1, k, f);
    }
  }

  /** A field whose last write in the pipeline is `HSET` holds the value
      set. */
  lemma {:induction false} ExecuteSet<K(!new)>(st: Store<K>, cmds: seq<Command<K>>, i: nat, k: K, f: string)
    requires i < |cmds| && cmds[i].HSetCmd? && cmds[i].key == k && cmds[i].field == f
    requires forall j :: i < j < |cmds| ==> !Writes(cmds[j], k, f)
    ensures HGet(Execute(st, cmds), k, f) == Some(cmds[i].value)
    decreases |cmds|
  {
    var next := Exec(st, cmds[0]);
    if i == 0 {
      ExecuteKeepsField(next, cmds[1..], k, f);
    } else {
      ExecuteSet(next, cmds[1..], i - 1, k, f);
    }
  }

  /** Commands that add nothing to a set leave it as it was. */
  lemma {:induction false} ExecuteKeepsSet<K(!new)>(st: Store<K>, cmds: seq<Command<K>>, k: K)
    requires forall j :: 0 <= j < |cmds| ==> !AddsTo(cmds[j], k)
    ensures Members(Execute(st, cmds), k) == Members(st, k)
    decreases |cmds|
  {
    if cmds != [] {
      assert !AddsTo(cmds[0], k);
      ExecuteKeepsSet(Exec(st, cmds[0]), cmds[1..], k);
    }
  }

  /** A set that one command of the pipeline adds to gains that member. */
  lemma {:induction false} ExecuteAdd<K(!new)>(st: Store<K>, cmds: seq<Command<K>>, i: nat, k: K)
    requires i < |cmds| && AddsTo(cmds[i], k)
    requires forall j :: 0 <= j < |cmds| && j != i ==> !AddsTo(cmds[j], k)
    ensures Members(Execute(st, cmds), k) == Members(st, k) + {cmds[i].member}
    decreases |cmds|
  {
    var next := Exec(st, cmds[0]);
    if i == 0 {
      ExecuteKeepsSet(next, cmds[1..], k);
    } else {
      assert !AddsTo(cmds[0], k);
      assert Members(next, k) == Members(st, k);
      ExecuteAdd(next, cmds[1..], i - 1, k);
    }
  }
}
