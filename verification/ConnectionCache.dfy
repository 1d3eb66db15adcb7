/** The cache of SSH connections in command.py: reuse, eviction of bad connections, purge. */
module ConnectionCache {
  import opened Wrappers
  import opened ConnectionRuns

  class Connection {
    const host: string
    const username: string
    var active: bool
    var authenticated: bool
    /** close() has been called. */
    var closed: bool

    constructor (host: string, username: string, active: bool, authenticated: bool)
      ensures this.host == host && this.username == username
      ensures this.active == active && this.authenticated == authenticated && !closed
    {
      this.host, this.username := host, username;
      this.active, this.authenticated, closed := active, authenticated, false;
    }

    function Request(): Request {
      (host, username)
    }

    ghost function Link(): Link
      reads this
    {
      ConnectionRuns.Link.Link(Request(), active, authenticated)
    }

    /** close(), whose exceptions try_close swallows. */
    method TryClose()
      modifies this
      ensures closed
    {
      active, closed := false, true;
    }
  }

  lemma RemovedThenPut<T>(m: map<string, T>, k: string, v: T)
    ensures (m - {k})[k := v] == m[k := v]
  {}

  class Cache {
    var cache: map<string, Connection>
    /** Every connection that was ever opened here. */
    ghost var opened_: set<Connection>
    /** Every host and user asked for so far. */
    ghost var asked: set<Request>
    /** The cached connections as values. */
    ghost var links: Links

    /** The connection stands in the cache, under its own key. */
    ghost predicate Cached(c: Connection)
      reads this
    {
      Key(c.Request()) in cache && cache[Key(c.Request())] == c
    }

    /** The connection was asked for, and is either in the cache or closed, in whatever state it is. */
    ghost predicate Tracked(c: Connection)
      reads this, c
    {
      (Cached(c) <==> !c.closed) && c.Request() in asked
    }

    /** The key's connection was opened for that key, and its link shows its state. */
    ghost predicate Kept(k: string)
      requires k in cache && k in links
      reads this, cache[k]
    {
      cache[k] in opened_ && Key(cache[k].Request()) == k && links[k] == cache[k].Link()
    }

    ghost predicate Valid()
      reads this, opened_, cache.Values
    {
      && links.Keys == cache.Keys
      && (forall c {:trigger Tracked(c)} :: c in opened_ ==> Tracked(c))
      && (forall k {:trigger Kept(k)} :: k in cache ==> Kept(k))
    }

    constructor ()
      ensures Valid() && cache == map[] && opened_ == {} && asked == {} && links == map[]
    {
      cache, opened_, asked, links := map[], {}, {}, map[];
    }

    /** The world at work: a connection changes its state behind the cache's back. */
    method Disturb(c: Connection, active: bool, authenticated: bool)
      requires Valid()
      modifies c`active, c`authenticated, this`links
      ensures Valid() && c.active == active && c.authenticated == authenticated
      ensures links == if Cached(c) then After(old(links), Change(Key(c.Request()), active, authenticated))
                       else old(links)
    {
      if Cached(c) {
        assert Kept(Key(c.Request()));
        links := links[Key(c.Request()) := ConnectionRuns.Link.Link(c.Request(), active, authenticated)];
      }
      c.active, c.authenticated := active, authenticated;
      forall d | d in opened_ ensures Tracked(d) {
        assert old(Tracked(d));
      }
      forall k | k in cache ensures Kept(k) {
        assert old(Kept(k));
      }
    }

    /** try_close(cache[key]); del cache[key] */
    method Evict(key: string)
      requires Valid() && key in cache
      modifies this`cache, this`links, cache[key]
      ensures Valid() && cache == old(cache) - {key} && old(cache)[key].closed
      ensures links == old(links) - {key}
    {
      assert Kept(key);
      cache[key].TryClose();
      cache, links := cache - {key}, links - {key};
      forall d | d in opened_ ensures Tracked(d) {
        assert old(Tracked(d));
      }
      forall k | k in cache ensures Kept(k) {
        assert old(Kept(k));
      }
    }

    /** cache[key] = conn, for the connection just opened. */
    method Store(conn: Connection)
      requires Valid() && conn !in opened_ && !conn.closed && Key(conn.Request()) !in cache && conn.Request() in asked
      modifies this`cache, this`links, this`opened_
      ensures Valid() && cache == old(cache)[Key(conn.Request()) := conn] && opened_ == old(opened_) + {conn}
      ensures links == old(links)[Key(conn.Request()) := conn.Link()]
    {
      cache, links := cache[Key(conn.Request()) := conn], links[Key(conn.Request()) := conn.Link()];
      opened_ := opened_ + {conn};
      forall d | d in opened_ ensures Tracked(d) {
        assert d == conn || old(Tracked(d));
      }
      forall k | k in cache ensures Kept(k) {
        assert k == Key(conn.Request()) || old(Kept(k));
      }
    }

    /** The block that calls the wrapped function and keeps what it opens. */
    method Recreate(host: string, username: string, attempt: Attempt) returns (conn: Connection?, raised: bool)
      requires Valid() && Key((host, username)) !in cache && (host, username) in asked
      modifies this`cache, this`links, this`opened_
      ensures Valid() && raised == attempt.Raises? && (conn != null) == attempt.Opens?
      ensures conn != null ==>
                && fresh(conn) && conn.Request() == (host, username) && !conn.closed
                && conn.active == attempt.active && conn.authenticated == attempt.authenticated
                && opened_ == old(opened_) + {conn} && cache == old(cache)[Key((host, username)) := conn]
                && links == old(links)[Key((host, username)) := conn.Link()]
      ensures conn == null ==> opened_ == old(opened_) && cache == old(cache) && links == old(links)
    {
      match attempt
      case Raises => return null, true;
      case GivesNone => return null, false;
      case Opens(active, authenticated) =>
        conn := new Connection(host, username, active, authenticated);
        Store(conn);
        raised := false;
    }

    ghost method NoteRequest(r: Request)
      requires Valid()
      modifies this`asked
      ensures Valid() && asked == old(asked) + {r}
    {
      asked := asked + {r};
      forall d | d in opened_ ensures Tracked(d) {
        assert old(Tracked(d));
      }
      forall k | k in cache ensures Kept(k) {
        assert old(Kept(k));
      }
    }

    /** The first block of the wrapper: the key's connection if it is good; a bad one is closed and removed. */
    method Revalidate(key: string) returns (conn: Connection?)
      requires Valid()
      modifies this`cache, this`links, opened_
      ensures Valid()
      ensures var hit := key in old(links) && old(links)[key].IsGood();
              && (conn != null) == hit
              && (hit ==> && key in cache && conn == cache[key] && conn in opened_ && !conn.closed
                          && conn.active && conn.authenticated && conn.Link() == old(links)[key]
                          && conn.Request() in asked && Key(conn.Request()) == key
                          && cache == old(cache) && links == old(links))
              && (!hit ==> cache == old(cache) - {key} && links == old(links) - {key}
                           && (key in old(cache) ==> old(cache)[key].closed))
    {
      conn := null;
      if key in cache {
        assert Kept(key) && Tracked(cache[key]);
        if cache[key].active && cache[key].authenticated {
          conn := cache[key];
        } else {
          Evict(key);
        }
      }
    }

    /** func_wrapper(host, username): the cached connection if it is good, else a new attempt. */
    method GetConnection(host: string, username: string, attempt: Attempt)
      returns (conn: Connection?, raised: bool)
      requires Valid()
      modifies this, opened_
      ensures Valid() && old(opened_) <= opened_ && fresh(opened_ - old(opened_))
      ensures asked == old(asked) + {(host, username)}
      // what the cache holds then, and whose connection the caller gets
      ensures links == After(old(links), Ask((host, username), attempt))
      ensures Handed(old(links), (host, username), attempt) == if conn == null then None else Some(conn.Request())
      // a hit
      ensures Hits(old(links), (host, username)) ==>
                && conn == old(cache)[Key((host, username))] && conn.active && conn.authenticated && !raised
                && cache == old(cache) && opened_ == old(opened_)
      // a miss, or a bad connection, which is closed
      ensures var key := Key((host, username));
              !Hits(old(links), (host, username)) ==>
                && (key in old(cache) ==> old(cache)[key].closed)
                && raised == attempt.Raises? && (conn != null) == attempt.Opens?
                && (conn != null ==>
                      fresh(conn) && opened_ == old(opened_) + {conn} && cache == old(cache)[key := conn])
                && (conn == null ==> opened_ == old(opened_) && cache == old(cache) - {key})
      // it was opened for a request with the same key, so for this one if no two asked for so far share a key
      ensures conn != null ==>
                && conn in opened_ && !conn.closed
                && conn.Request() in asked && Key(conn.Request()) == Key((host, username))
      ensures conn != null && NoCollision(iset r | r in asked) ==> conn.Request() == (host, username)
    {
      raised := false;
      var key := Key((host, username));
      NoteRequest((host, username));
      conn := Revalidate(key);
      if conn != null {
        return;
      }
      if key !in cache {
        conn, raised := Recreate(host, username, attempt);
        if conn != null {
          RemovedThenPut(old(links), key, conn.Link());
          RemovedThenPut(old(cache), key, conn);
        }
        return;
      }
      // the source returns None here, unsure whether it can get here
      assert false;
    }

    /** purge(key) for Some(key), purge() for None. */
    method Purge(key: Option<string>)
      requires Valid()
      modifies this, opened_
      ensures Valid() && opened_ == old(opened_) && asked == old(asked)
      ensures cache == if key.None? then map[] else old(cache) - {key.value}
      ensures links == After(old(links), Event.Purge(key))
      ensures forall k :: k in old(cache) && (key.None? || k == key.value) ==> old(cache)[k].closed
    {
      var keys := if key.None? then cache.Keys else if key.value in cache then {key.value} else {};
      ghost var purged: set<string> := {};
      while keys != {}
        invariant Valid() && opened_ == old(opened_) && asked == old(asked)
        invariant keys <= cache.Keys && cache == old(cache) - purged && links == old(links) - purged
        invariant keys + purged ==
                  if key.None? then old(cache.Keys) else if key.value in old(cache) then {key.value} else {}
        invariant forall k :: k in purged && k in old(cache) ==> old(cache)[k].closed
        decreases keys
      {
        var k :| k in keys;
        assert Kept(k);
        Evict(k);
        keys, purged := keys - {k}, purged + {k};
      }
    }
  }

  /**
   Two calls on a new cache whose attempts both succeed: the second caller gets a connection for
   its host and user exactly when the two requests are the same or have different keys.
   */
  method TwoCalls(r: Request, s: Request) returns (second: Connection)
    ensures second.Request() == s <==> (r == s || Key(r) != Key(s))
  {
    var cache := new Cache();
    var first, raised := cache.GetConnection(r.0, r.1, Opens(true, true));
    var conn;
    conn, raised := cache.GetConnection(s.0, s.1, Opens(true, true));
    second := conn;
  }
}
