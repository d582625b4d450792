/**
 * The shared Redis state store, seen as an in-memory dictionary.
 *
 * Every key holds one value: a string, a hash, a set or a list. A Redis set
 * is kept as a duplicate-free sequence in insertion order (Redis leaves the
 * order of SMEMBERS unspecified; no property of the model depends on it).
 * Expiry times are recorded, in seconds, but time never passes.
 */
module RedisStore {
  import opened Common

  datatype Value =
    | Str(str: string)
    | Hash(fields: map<string, string>)
    | Members(members: seq<string>)
    | List(items: seq<string>)

  /** A `KEYS` pattern: `head*` or `head*tail`, every other character literal. */
  datatype Glob = Prefix(head: string) | Around(head: string, tail: string)

  predicate Matches(g: Glob, k: string) {
    match g
    case Prefix(h) => StartsWith(k, h)
    case Around(h, t) => |h| + |t| <= |k| && StartsWith(k, h) && EndsWith(k, t)
  }

  /** A command queued inside `MULTI`, run by `EXEC`. */
  datatype Command =
    | HMSetCmd(key: string, fields: map<string, string>)
    | SAddCmd(key: string, member: string)
    | SRemCmd(key: string, member: string)
    | ExpireCmd(key: string, seconds: int)
    | DelCmd(key: string)

  datatype Db = Db(data: map<string, Value>, ttl: map<string, nat>) {

    /** EXISTS */
    predicate Exists(k: string) {
      k in data
    }

    /** GET: the string at `k`, or null. */
    function GetStr(k: string): Option<string> {
      if k in data && data[k].Str? then Some(data[k].str) else None
    }

    /** SET, with `EX seconds` when `ex` is given; a plain SET drops the expiry. */
    function SetStr(k: string, v: string, ex: Option<nat>): Db {
      Db(data[k := Str(v)], if ex.Some? then ttl[k := ex.value] else ttl - {k})
    }

    /** DEL of one key. */
    function Del(k: string): Db {
      Db(data - {k}, ttl - {k})
    }

    /** DEL of several keys. */
    function DelAll(ks: set<string>): Db {
      Db(data - ks, ttl - ks)
    }

    /** HGETALL: the fields at `k`, empty when the key is absent. */
    function HashAt(k: string): map<string, string> {
      if k in data && data[k].Hash? then data[k].fields else map[]
    }

    /** HGET */
    function HGet(k: string, f: string): Option<string> {
      var h := HashAt(k);
      if f in h then Some(h[f]) else None
    }

    /** HSET of one field; the expiry is kept. */
    function HSet(k: string, f: string, v: string): Db {
      Db(data[k := Hash(HashAt(k)[f := v])], ttl)
    }

    /** HMSET: the given fields overwrite, the others stay; the expiry is kept. */
    function HMSet(k: string, fields: map<string, string>): Db {
      Db(data[k := Hash(HashAt(k) + fields)], ttl)
    }

    /** SMEMBERS: the members at `k`, empty when the key is absent. */
    function MembersAt(k: string): seq<string> {
      if k in data && data[k].Members? then data[k].members else []
    }

    /** SCARD */
    function SCard(k: string): nat {
      |MembersAt(k)|
    }

    /** SADD of one member; adding a present member changes nothing. */
    function SAdd(k: string, m: string): Db {
      var cur := MembersAt(k);
      Db(data[k := Members(if m in cur then cur else cur + [m])], ttl)
    }

    /** SREM of one member; Redis deletes a set that becomes empty. */
    function SRem(k: string, m: string): Db {
      if k in data && data[k].Members? then
        var rest := Without(data[k].members, m);
        if rest == [] then Del(k) else Db(data[k := Members(rest)], ttl)
      else this
    }

    /** LRANGE k 0 -1: the whole list, empty when the key is absent. */
    function ListAt(k: string): seq<string> {
      if k in data && data[k].List? then data[k].items else []
    }

    /** RPUSH of one element at the tail; the expiry is kept. */
    function RPush(k: string, v: string): Db {
      Db(data[k := List(ListAt(k) + [v])], ttl)
    }

    /**
     * EXPIRE: records the expiry of an existing key and ignores an absent
     * one; a timeout of zero or less deletes the key at once.
     */
    function Expire(k: string, seconds: int): Db {
      if k !in data then this
      else if seconds <= 0 then Del(k)
      else Db(data, ttl[k := seconds])
    }

    /** KEYS pattern */
    function Keys(g: Glob): set<string> {
      set k | k in data && Matches(g, k)
    }

    function Apply(c: Command): Db {
      match c
      case HMSetCmd(k, fs) => HMSet(k, fs)
      case SAddCmd(k, m) => SAdd(k, m)
      case SRemCmd(k, m) => SRem(k, m)
      case ExpireCmd(k, s) => Expire(k, s)
      case DelCmd(k) => Del(k)
    }

    /** EXEC: runs the queued commands in order. */
    function Exec(cs: seq<Command>): Db
      decreases |cs|
    {
      if cs == [] then this else Apply(cs[0]).Exec(cs[1..])
    }

    /** What is stored at `k`, for stating that two stores agree there. */
    function At(k: string): Option<Value> {
      if k in data then Some(data[k]) else None
    }
  }

  const EmptyDb := Db(map[], map[])

  /**
   * The two stores agree on every key except possibly those in `changed`.
   */
  ghost predicate SameExcept(a: Db, b: Db, changed: iset<string>) {
    forall k | k !in changed :: a.At(k) == b.At(k)
  }

  /** Changes outside `x`, then outside `y`, are changes outside both. */
  lemma SameExceptCompose(a: Db, b: Db, c: Db, x: iset<string>, y: iset<string>)
    requires SameExcept(a, b, x) && SameExcept(b, c, y)
    ensures SameExcept(a, c, x + y)
  {
  }

  /** Two stores holding the same value at `k` read the same there. */
  lemma SameAt(a: Db, b: Db, k: string)
    requires a.At(k) == b.At(k)
    ensures a.MembersAt(k) == b.MembersAt(k) && a.SCard(k) == b.SCard(k) && a.HashAt(k) == b.HashAt(k)
    ensures a.GetStr(k) == b.GetStr(k)
  {
  }

  /** A key outside the changed ones reads the same in both stores. */
  lemma SameExceptAt(a: Db, b: Db, changed: iset<string>, k: string)
    requires SameExcept(a, b, changed) && k !in changed
    ensures a.At(k) == b.At(k)
    ensures a.MembersAt(k) == b.MembersAt(k) && a.SCard(k) == b.SCard(k) && a.HashAt(k) == b.HashAt(k)
    ensures a.GetStr(k) == b.GetStr(k)
  {
    SameAt(a, b, k);
  }

  /** SADD changes only its own key, which gains the member once. */
  lemma SAddReads(d: Db, k: string, m: string)
    ensures d.SAdd(k, m).MembersAt(k) == if m in d.MembersAt(k) then d.MembersAt(k) else d.MembersAt(k) + [m]
    ensures d.SAdd(k, m).ttl == d.ttl
    ensures forall j | j != k :: d.SAdd(k, m).At(j) == d.At(j)
  {
  }

  /** HMSET changes only its own key, whose fields are overlaid. */
  lemma HMSetReads(d: Db, k: string, fs: map<string, string>)
    ensures d.HMSet(k, fs).HashAt(k) == d.HashAt(k) + fs
    ensures d.HMSet(k, fs).ttl == d.ttl
    ensures forall j | j != k :: d.HMSet(k, fs).At(j) == d.At(j)
  {
  }

  /**
   * EXPIRE with a positive timeout changes no value, only the expiry of an
   * existing key; with a timeout of zero or less the key is gone. No other
   * key changes either way.
   */
  lemma ExpireReads(d: Db, k: string, seconds: int)
    ensures seconds > 0 ==> forall j :: d.Expire(k, seconds).At(j) == d.At(j)
    ensures seconds > 0 && k in d.data ==> d.Expire(k, seconds).ttl == d.ttl[k := seconds]
    ensures seconds <= 0 ==> !d.Expire(k, seconds).Exists(k)
    ensures forall j | j != k :: d.Expire(k, seconds).At(j) == d.At(j)
  {
  }

  lemma ExecTwo(db: Db, c0: Command, c1: Command)
    ensures db.Exec([c0, c1]) == db.Apply(c0).Apply(c1)
  {
    var d1 := db.Apply(c0);
    var d2 := d1.Apply(c1);
    assert [c0, c1][0] == c0 && [c0, c1][1..] == [c1];
    assert db.Exec([c0, c1]) == d1.Exec([c1]);
    assert [c1][0] == c1 && [c1][1..] == [];
    assert d1.Exec([c1]) == d2.Exec([]);
  }

  lemma ExecThree(db: Db, c0: Command, c1: Command, c2: Command)
    ensures db.Exec([c0, c1, c2]) == db.Apply(c0).Apply(c1).Apply(c2)
  {
    assert [c0, c1, c2][1..] == [c1, c2];
    ExecTwo(db.Apply(c0), c1, c2);
  }

  lemma ExecFour(db: Db, c0: Command, c1: Command, c2: Command, c3: Command)
    ensures db.Exec([c0, c1, c2, c3]) == db.Apply(c0).Apply(c1).Apply(c2).Apply(c3)
  {
    assert [c0, c1, c2, c3][1..] == [c1, c2, c3];
    ExecThree(db.Apply(c0), c1, c2, c3);
  }

  /** A Redis client connection: the commands the core issues. */
  class RedisClient {
    var db: Db

    constructor()
      ensures db == EmptyDb
    {
      db := EmptyDb;
    }

    method Set(k: string, v: string, ex: Option<nat>)
      modifies this
      ensures db == old(db).SetStr(k, v, ex)
    {
      db := db.SetStr(k, v, ex);
    }

    method Del(k: string)
      modifies this
      ensures db == old(db).Del(k)
    {
      db := db.Del(k);
    }

    method DelAll(ks: set<string>)
      modifies this
      ensures db == old(db).DelAll(ks)
    {
      db := db.DelAll(ks);
    }

    method HSet(k: string, f: string, v: string)
      modifies this
      ensures db == old(db).HSet(k, f, v)
    {
      db := db.HSet(k, f, v);
    }

    method HMSet(k: string, fields: map<string, string>)
      modifies this
      ensures db == old(db).HMSet(k, fields)
    {
      db := db.HMSet(k, fields);
    }

    method RPush(k: string, v: string)
      modifies this
      ensures db == old(db).RPush(k, v)
    {
      db := db.RPush(k, v);
    }

    method Expire(k: string, seconds: int)
      modifies this
      ensures db == old(db).Expire(k, seconds)
    {
      db := db.Expire(k, seconds);
    }

    method Exec(queued: seq<Command>)
      modifies this
      ensures db == old(db).Exec(queued)
    {
      db := db.Exec(queued);
    }
  }
}
