/** What runs of calls do to the cache of SSH connections in command.py, and whose connection each call gets. */
module ConnectionRuns {
  import opened Wrappers

  const DASH := '-'

  /** A host and a user name. */
  type Request = (string, string)

  /** "{h}-{u}" */
  function Key(r: Request): string {
    r.0 + [DASH] + r.1
  }

  /** The key as a caller of purge writes it. */
  lemma KeyText(r: Request)
    ensures Key(r) == r.0 + "-" + r.1
    ensures Key(("10.0.0.1", "core")) == "10.0.0.1-core"
  {}

  /** A cached connection: whom it was opened for, and its state. */
  datatype Link = Link(request: Request, active: bool, authenticated: bool) {
    predicate IsGood() {
      active && authenticated
    }
  }

  type Links = map<string, Link>

  /** What the wrapped function does when it is called: it opens a connection, gives None, or raises. */
  datatype Attempt = Opens(active: bool, authenticated: bool) | GivesNone | Raises

  /** A call of the wrapper, a purge (of everything for None), or a connection changing on its own. */
  datatype Event =
    | Ask(request: Request, attempt: Attempt)
    | Purge(only: Option<string>)
    | Change(key: string, active: bool, authenticated: bool)

  predicate Hits(links: Links, r: Request) {
    Key(r) in links && links[Key(r)].IsGood()
  }

  function After(links: Links, e: Event): Links {
    match e
    case Ask(r, attempt) =>
      if Hits(links, r) then links
      else if attempt.Opens? then links[Key(r) := Link(r, attempt.active, attempt.authenticated)]
      else links - {Key(r)}
    case Purge(only) => if only.None? then map[] else links - {only.value}
    case Change(key, active, authenticated) =>
      if key in links then links[key := Link(links[key].request, active, authenticated)] else links
  }

  /** Whom the connection was opened for that the caller gets; None if it gets none. */
  function Handed(links: Links, r: Request, attempt: Attempt): Option<Request> {
    if Hits(links, r) then Some(links[Key(r)].request)
    else if attempt.Opens? then Some(r)
    else None
  }

  /** Every call of the run that gets a connection gets one opened for its own host and user. */
  predicate AllGetTheirOwn(links: Links, events: seq<Event>)
    decreases |events|
  {
    events == [] ||
    (&& (events[0].Ask? ==> Handed(links, events[0].request, events[0].attempt) in {None, Some(events[0].request)})
     && AllGetTheirOwn(After(links, events[0]), events[1..]))
  }

  ghost predicate AsksOnly(events: seq<Event>, requests: iset<Request>) {
    forall e :: e in events && e.Ask? ==> e.request in requests
  }

  ghost predicate NoCollision(requests: iset<Request>) {
    forall r, s :: r in requests && s in requests && Key(r) == Key(s) ==> r == s
  }

  ghost predicate LinksAreOwn(links: Links, requests: iset<Request>) {
    forall k :: k in links ==> links[k].request in requests && Key(links[k].request) == k
  }

  lemma {:induction false} WithoutCollision(links: Links, events: seq<Event>, requests: iset<Request>)
    requires NoCollision(requests) && LinksAreOwn(links, requests) && AsksOnly(events, requests)
    ensures AllGetTheirOwn(links, events)
    decreases |events|
  {
    if events != [] {
      assert events[0] in events;
      WithoutCollision(After(links, events[0]), events[1..], requests);
    }
  }

  /** Asking for r and then for s, when both connections come up. */
  function Both(r: Request, s: Request): seq<Event> {
    [Ask(r, Opens(true, true)), Ask(s, Opens(true, true))]
  }

  lemma SecondGetsTheFirst(r: Request, s: Request)
    ensures AllGetTheirOwn(map[], Both(r, s)) <==> (r == s || Key(r) != Key(s))
  {
    var links := After(map[], Both(r, s)[0]);
    assert links == map[Key(r) := Link(r, true, true)];
    assert Both(r, s)[1..] == [Ask(s, Opens(true, true))];
    assert [Ask(s, Opens(true, true))][1..] == [];
    assert AllGetTheirOwn(links, Both(r, s)[1..]) <==> Handed(links, s, Opens(true, true)) == Some(s);
  }

  /**
   Callers who ask for these requests only, in whatever run with purges and failing connections, all
   get connections for the host and user they asked for, if and only if no two of the requests
   share a key.
   */
  lemma AllGetTheirOwnIffNoCollision(requests: iset<Request>)
    ensures (forall events :: AsksOnly(events, requests) ==> AllGetTheirOwn(map[], events)) <==> NoCollision(requests)
  {
    if NoCollision(requests) {
      forall events | AsksOnly(events, requests) ensures AllGetTheirOwn(map[], events) {
        WithoutCollision(map[], events, requests);
      }
    } else {
      var r, s :| r in requests && s in requests && Key(r) == Key(s) && r != s;
      SecondGetsTheFirst(r, s);
      assert AsksOnly(Both(r, s), requests);
    }
  }

  /** A piece that ends in a dash moves from the user name of r to the host of s. */
  predicate Moves(piece: string, r: Request, s: Request) {
    s.0 == r.0 + [DASH] + piece && r.1 == piece + [DASH] + s.1
  }

  lemma MovedPiece(r: Request, s: Request)
    requires Key(r) == Key(s) && |r.0| < |s.0|
    ensures Moves(s.0[|r.0| + 1..], r, s)
  {
    var k := Key(r);
    assert k[..|s.0|] == s.0 && k[..|r.0|] == r.0 && k[|r.0|] == DASH && k[|s.0|] == DASH;
    assert r.1 == k[|r.0| + 1..] && s.1 == k[|s.0| + 1..];
  }

  lemma MovingKeepsTheKey(piece: string, r: Request, s: Request)
    requires Moves(piece, r, s)
    ensures Key(r) == Key(s)
  {
    assert Key(r) == r.0 + [DASH] + piece + [DASH] + s.1;
  }

  /** Exactly how two requests can share a key. */
  lemma KeysCollideIff(r: Request, s: Request)
    ensures Key(r) == Key(s) <==> r == s || exists piece :: Moves(piece, r, s) || Moves(piece, s, r)
  {
    if Key(r) == Key(s) {
      if |r.0| < |s.0| {
        MovedPiece(r, s);
      } else if |s.0| < |r.0| {
        MovedPiece(s, r);
      } else {
        assert Key(r)[..|r.0|] == r.0 && Key(s)[..|s.0|] == s.0;
        assert Key(r)[|r.0| + 1..] == r.1 && Key(s)[|s.0| + 1..] == s.1;
      }
    }
    forall piece | Moves(piece, r, s) || Moves(piece, s, r) ensures Key(r) == Key(s) {
      if Moves(piece, r, s) {
        MovingKeepsTheKey(piece, r, s);
      } else {
        MovingKeepsTheKey(piece, s, r);
      }
    }
  }

  /** No two requests collide if no user name holds a dash, nor if no host does. */
  lemma DashFreeRequestsDoNotCollide(requests: iset<Request>)
    requires (forall r :: r in requests ==> DASH !in r.1) || (forall r :: r in requests ==> DASH !in r.0)
    ensures NoCollision(requests)
  {
    forall r, s | r in requests && s in requests && Key(r) == Key(s) ensures r == s {
      KeysCollideIff(r, s);
    }
  }
}
