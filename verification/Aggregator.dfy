/** The aggregator as it runs: buckets updated line by line, tables updated through transactions that can fail. */
module Aggregators {
  import opened Traffic
  import opened Aggregation

  class MinuteBucket {
    var bytesHit: int
    var bytesMiss: int
    var requestsHit: int
    var requestsMiss: int
    var hosts: map<string, Counters>
    var ips: map<string, Counters>

    constructor ()
      ensures Contents() == EMPTY
    {
      bytesHit, bytesMiss, requestsHit, requestsMiss := 0, 0, 0, 0;
      hosts, ips := map[], map[];
    }

    function Contents(): Bucket
      reads this
    {
      Bucket(Counters(bytesHit, bytesMiss, requestsHit, requestsMiss), hosts, ips)
    }

    method Count(line: LogLine)
      modifies this
      ensures Contents() == Add(old(Contents()), line)
    {
      if line.IsHit() {
        bytesHit := bytesHit + line.bytesSent;
        requestsHit := requestsHit + 1;
      } else {
        bytesMiss := bytesMiss + line.bytesSent;
        requestsMiss := requestsMiss + 1;
      }
      var hb := if line.host in hosts then hosts[line.host] else ZERO;
      if line.IsHit() {
        hb := hb.(bytesHit := hb.bytesHit + line.bytesSent);
      } else {
        hb := hb.(bytesMiss := hb.bytesMiss + line.bytesSent);
      }
      hosts := hosts[line.host := hb];
      if line.remoteAddr != "" {
        var ib := if line.remoteAddr in ips then ips[line.remoteAddr] else ZERO;
        if line.IsHit() {
          ib := ib.(bytesHit := ib.bytesHit + line.bytesSent, requestsHit := ib.requestsHit + 1);
        } else {
          ib := ib.(bytesMiss := ib.bytesMiss + line.bytesSent, requestsMiss := ib.requestsMiss + 1);
        }
        ips := ips[line.remoteAddr := ib];
      }
    }
  }

  /** The database. Any call may fail; a transaction's changes are in working until it commits. */
  class Database {
    const fails: nat -> bool
    var calls: nat
    var tables: Tables
    var working: Tables

    constructor (fails: nat -> bool)
      ensures tables == NO_ROWS
    {
      this.fails, calls := fails, 0;
      tables, working := NO_ROWS, NO_ROWS;
    }

    /** No call ever fails. */
    ghost predicate Reliable() {
      forall n: nat :: !fails(n)
    }

    method Call() returns (ok: bool)
      modifies `calls
      ensures Reliable() ==> ok
    {
      ok := !fails(calls);
      calls := calls + 1;
    }

    method Begin() returns (ok: bool)
      modifies `calls, `working
      ensures Reliable() ==> ok
      ensures working == tables
    {
      ok := Call();
      working := tables;
    }

    method UpsertMinute(minute: int, c: Counters) returns (ok: bool)
      modifies `calls, `working
      ensures Reliable() ==> ok
      ensures ok ==> working == old(working).(minutes := Upsert(old(working).minutes, minute, c))
    {
      ok := Call();
      if ok { working := working.(minutes := Upsert(working.minutes, minute, c)); }
    }

    method UpsertHost(minute: int, host: string, c: Counters) returns (ok: bool)
      modifies `calls, `working
      ensures Reliable() ==> ok
      ensures ok ==> working == old(working).(hosts := Upsert(old(working).hosts, (minute, host), c))
    {
      ok := Call();
      if ok { working := working.(hosts := Upsert(working.hosts, (minute, host), c)); }
    }

    method UpsertIP(minute: int, ip: string, c: Counters) returns (ok: bool)
      modifies `calls, `working
      ensures Reliable() ==> ok
      ensures ok ==> working == old(working).(ips := Upsert(old(working).ips, (minute, ip), c))
    {
      ok := Call();
      if ok { working := working.(ips := Upsert(working.ips, (minute, ip), c)); }
    }

    /** Deletes a table's rows inside the transaction. */
    method Truncate(emptied: Tables) returns (ok: bool)
      modifies `calls, `working
      ensures Reliable() ==> ok
      ensures ok ==> working == emptied
    {
      ok := Call();
      if ok { working := emptied; }
    }

    method Commit() returns (ok: bool)
      modifies `calls, `tables
      ensures Reliable() ==> ok
      ensures tables == if ok then working else old(tables)
    {
      ok := Call();
      if ok { tables := working; }
    }

    /** A statement outside any transaction. */
    method Exec(after: Tables) returns (ok: bool)
      modifies `calls, `tables
      ensures Reliable() ==> ok
      ensures tables == if ok then after else old(tables)
    {
      ok := Call();
      if ok { tables := after; }
    }
  }

  /** The entries of a map under some of its keys. */
  function Only(b: map<string, Counters>, keys: set<string>): map<string, Counters> {
    map k | k in b && k in keys :: b[k]
  }

  lemma UpsertGet(t: map<Key, Counters>, key: Key, c: Counters, k: Key)
    ensures (k in Upsert(t, key, c)) == (k in t || k == key)
    ensures Get(Upsert(t, key, c), k) == if k == key then Get(t, k).Plus(c) else Get(t, k)
  {
  }

  lemma SameRows(t: map<Key, Counters>, u: map<Key, Counters>)
    requires forall k :: (k in t) == (k in u) && Get(t, k) == Get(u, k)
    ensures t == u
  {
    assert t.Keys == u.Keys;
    assert forall k :: k in t ==> t[k] == Get(t, k) && u[k] == Get(u, k);
  }

  lemma OnlyGet(b: map<string, Counters>, keys: set<string>, x: string)
    ensures (x in Only(b, keys)) == (x in b && x in keys)
    ensures Get(Only(b, keys), x) == if x in keys then Get(b, x) else ZERO
  {
  }

  /** One more upsert brings one more entry into the table. */
  lemma UpsertOneMore(t: map<Key, Counters>, minute: int, b: map<string, Counters>, keys: set<string>, h: string)
    requires h in b && h !in keys
    ensures Upsert(UpsertAll(t, minute, Only(b, keys)), (minute, h), b[h]) == UpsertAll(t, minute, Only(b, keys + {h}))
  {
    var before, after := UpsertAll(t, minute, Only(b, keys)), UpsertAll(t, minute, Only(b, keys + {h}));
    var one := Upsert(before, (minute, h), b[h]);
    forall k: Key ensures (k in one) == (k in after) && Get(one, k) == Get(after, k) {
      OneMoreAt(t, minute, b, keys, h, k.0, k.1);
      assert k == (k.0, k.1);
    }
    SameRows(one, after);
  }

  lemma OneMoreAt(t: map<Key, Counters>, minute: int, b: map<string, Counters>, keys: set<string>, h: string, m: int, x: string)
    requires h in b && h !in keys
    ensures var one, after := Upsert(UpsertAll(t, minute, Only(b, keys)), (minute, h), b[h]), UpsertAll(t, minute, Only(b, keys + {h}));
            ((m, x) in one) == ((m, x) in after) && Get(one, (m, x)) == Get(after, (m, x))
  {
    hide Upsert, UpsertAll, Only, Get, Counters.Plus;
    UpsertGet(UpsertAll(t, minute, Only(b, keys)), (minute, h), b[h], (m, x));
    UpsertAllGet(t, minute, Only(b, keys), m, x);
    UpsertAllGet(t, minute, Only(b, keys + {h}), m, x);
    OnlyGet(b, keys, x);
    OnlyGet(b, keys + {h}, x);
    GetIn(b, h);
    PlusZero(Get(t, (m, x)));
    if m == minute {
      if x == h {
        assert Get(UpsertAll(t, minute, Only(b, keys)), (m, x)) == Get(t, (m, x));
      } else {
        assert (m, x) != (minute, h);
      }
    }
  }

  lemma GetIn(b: map<string, Counters>, h: string)
    requires h in b
    ensures Get(b, h) == b[h]
  {
  }

  lemma PlusZero(c: Counters)
    ensures c.Plus(ZERO) == c
  {
  }

  lemma UpsertNothing(t: map<Key, Counters>, minute: int, b: map<string, Counters>)
    ensures UpsertAll(t, minute, Only(b, {})) == t
    ensures Only(b, b.Keys) == b
  {
    assert Only(b, {}) == map[];
  }

  class Aggregator {
    var currentMinute: int
    var bucket: MinuteBucket
    const db: Database

    constructor (db: Database)
      ensures this.db == db && fresh(bucket)
      ensures Now() == Aggregation.State(0, EMPTY, db.tables)
    {
      this.db := db;
      currentMinute := 0;
      bucket := new MinuteBucket();
    }

    function Now(): State
      reads this, bucket, db
    {
      Aggregation.State(currentMinute, bucket.Contents(), db.tables)
    }

    /** Writes a bucket into the tables, all of it or, when any call fails, none of it. */
    method FlushLocked(minute: int, b: MinuteBucket) returns (ok: bool)
      modifies db
      ensures db.Reliable() ==> ok
      ensures db.tables == Flush(old(db.tables), minute, old(b.Contents()), ok)
    {
      if b.requestsHit + b.requestsMiss == 0 { return true; }
      ok := db.Begin();
      if !ok { return; }
      ghost var before := db.tables;
      ok := db.UpsertMinute(minute, Counters(b.bytesHit, b.bytesMiss, b.requestsHit, b.requestsMiss));
      if !ok { return; }
      ok := FlushHosts(minute, b.hosts);
      if !ok { return; }
      ok := FlushIPs(minute, b.ips);
      if !ok { return; }
      ok := db.Commit();
    }

    method FlushHosts(minute: int, b: map<string, Counters>) returns (ok: bool)
      modifies db
      ensures db.Reliable() ==> ok
      ensures db.tables == old(db.tables)
      ensures ok ==> db.working == old(db.working).(hosts := UpsertAll(old(db.working).hosts, minute, b))
    {
      var rest := b.Keys;
      UpsertNothing(db.working.hosts, minute, b);
      while rest != {}
        invariant rest <= b.Keys && db.tables == old(db.tables)
        invariant db.working == old(db.working).(hosts := UpsertAll(old(db.working).hosts, minute, Only(b, b.Keys - rest)))
        decreases rest
      {
        var h :| h in rest;
        UpsertOneMore(old(db.working).hosts, minute, b, b.Keys - rest, h);
        assert b.Keys - (rest - {h}) == b.Keys - rest + {h};
        ok := db.UpsertHost(minute, h, b[h]);
        if !ok { return; }
        rest := rest - {h};
      }
      assert b.Keys - rest == b.Keys;
      ok := true;
    }

    method FlushIPs(minute: int, b: map<string, Counters>) returns (ok: bool)
      modifies db
      ensures db.Reliable() ==> ok
      ensures db.tables == old(db.tables)
      ensures ok ==> db.working == old(db.working).(ips := UpsertAll(old(db.working).ips, minute, b))
    {
      var rest := b.Keys;
      UpsertNothing(db.working.ips, minute, b);
      while rest != {}
        invariant rest <= b.Keys && db.tables == old(db.tables)
        invariant db.working == old(db.working).(ips := UpsertAll(old(db.working).ips, minute, Only(b, b.Keys - rest)))
        decreases rest
      {
        var ip :| ip in rest;
        UpsertOneMore(old(db.working).ips, minute, b, b.Keys - rest, ip);
        assert b.Keys - (rest - {ip}) == b.Keys - rest + {ip};
        ok := db.UpsertIP(minute, ip, b[ip]);
        if !ok { return; }
        rest := rest - {ip};
      }
      assert b.Keys - rest == b.Keys;
      ok := true;
    }

    method Ingest(line: LogLine) returns (ok: bool)
      modifies this, bucket, db
      ensures db.Reliable() ==> ok
      ensures Now() == Next(old(Now()), Event.Ingest(line, ok))
      ensures bucket == old(bucket) || fresh(bucket)
    {
      ok := true;
      var minute := line.Minute();
      if currentMinute == 0 { currentMinute := minute; }
      if minute != currentMinute {
        ok := FlushLocked(currentMinute, bucket);
        bucket := new MinuteBucket();
        currentMinute := minute;
      }
      bucket.Count(line);
    }

    /** One firing of the flush timer. */
    method Tick(now: int) returns (ok: bool)
      modifies this, db
      ensures db.Reliable() ==> ok
      ensures Now() == Next(old(Now()), Event.Tick(now, ok))
      ensures bucket == old(bucket) || fresh(bucket)
    {
      ok := true;
      if currentMinute != 0 {
        ok := FlushLocked(currentMinute, bucket);
        bucket := new MinuteBucket();
        currentMinute := now;
      }
    }

    method Close() returns (ok: bool)
      modifies this, db
      ensures db.Reliable() ==> ok
      ensures Now() == Next(old(Now()), Event.Close(ok))
      ensures bucket == old(bucket) || fresh(bucket)
    {
      ok := true;
      if currentMinute != 0 {
        ok := FlushLocked(currentMinute, bucket);
        bucket := new MinuteBucket();
        currentMinute := 0;
      }
    }

    method ClearAll() returns (ok: bool)
      modifies this, db
      ensures db.Reliable() ==> ok
      ensures Now() == Next(old(Now()), Event.ClearAll(ok))
      ensures bucket == old(bucket) || fresh(bucket)
    {
      ok := db.Begin();
      if !ok { return; }
      ok := db.Truncate(db.working.(hosts := map[]));
      if !ok { return; }
      ok := db.Truncate(db.working.(ips := map[]));
      if !ok { return; }
      ok := db.Truncate(db.working.(minutes := map[]));
      if !ok { return; }
      ok := db.Commit();
      if !ok { return; }
      bucket := new MinuteBucket();
      currentMinute := 0;
    }

    /** The three deletes one after another; done says how many went through before one failed. */
    method ApplyRetention(cutoff: int) returns (done: nat)
      modifies db
      ensures db.Reliable() ==> done == 3
      ensures done <= 3 && Now() == Deleted(old(Now()), cutoff, done)
    {
      var ok := db.Exec(db.tables.(minutes := map m | m in db.tables.minutes && m >= cutoff :: db.tables.minutes[m]));
      if !ok { return 0; }
      ok := db.Exec(db.tables.(hosts := map k | k in db.tables.hosts && k.0 >= cutoff :: db.tables.hosts[k]));
      if !ok { return 1; }
      ok := db.Exec(db.tables.(ips := map k | k in db.tables.ips && k.0 >= cutoff :: db.tables.ips[k]));
      if !ok { return 2; }
      done := 3;
    }
  }

  /** The first deletes of one retention pass, as events of the state machine. */
  function Deleted(s: State, cutoff: int, done: nat): State {
    if done == 0 then s
    else if done == 1 then Next(s, DeleteMinutes(cutoff))
    else if done == 2 then Next(Next(s, DeleteMinutes(cutoff)), DeleteHosts(cutoff))
    else Next(Next(Next(s, DeleteMinutes(cutoff)), DeleteHosts(cutoff)), DeleteIPs(cutoff))
  }
}
