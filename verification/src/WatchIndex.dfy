/**
The double index behind WATCH (multi.c:134-273): for every client the list of
the pairs it watches, for every pair the list of the clients that watch it, and
the clients whose next EXEC fails.
*/
module WatchIndex {
  import opened Common

  /** A key with the number of its database. */
  type Pair = (nat, bytes)

  datatype Index = Index(watched: map<nat, seq<Pair>>, watchers: map<Pair, seq<nat>>, dirty: set<nat>)

  predicate NoDup<T(==)>(s: seq<T>) {
    forall i, j :: 0 <= i < j < |s| ==> s[i] != s[j]
  }

  predicate Watches(ix: Index, c: nat, k: Pair) {
    c in ix.watched && k in ix.watched[c]
  }

  predicate Listed(ix: Index, c: nat, k: Pair) {
    k in ix.watchers && c in ix.watchers[k]
  }

  /** A client is listed for a pair, once, exactly when the pair is in the client's
      own list, once; and no list of clients is empty. */
  ghost predicate IndexOk(ix: Index) {
    && (forall c :: c in ix.watched ==> NoDup(ix.watched[c]))
    && (forall k :: k in ix.watchers ==> NoDup(ix.watchers[k]) && ix.watchers[k] != [])
    && (forall c, k :: Watches(ix, c, k) <==> Listed(ix, c, k))
  }

  // ---- the operations -----------------------------------------------------

  /** watchForKey. */
  function WatchKey(ix: Index, c: nat, k: Pair): Index {
    if Watches(ix, c, k) then ix
    else ix.(watchers := ix.watchers[k := (if k in ix.watchers then ix.watchers[k] else []) + [c]],
             watched := ix.watched[c := (if c in ix.watched then ix.watched[c] else []) + [k]])
  }

  /** The list without its first `x`. */
  function RemoveFirst<T(==)>(s: seq<T>, x: T): (r: seq<T>)
    ensures x !in s ==> r == s
  {
    if s == [] then [] else if s[0] == x then s[1..] else [s[0]] + RemoveFirst(s[1..], x)
  }

  /** One turn of unwatchAllKeys: the first pair of the client's list. */
  function UnwatchFirst(ix: Index, c: nat): Index
    requires c in ix.watched && ix.watched[c] != []
  {
    var k := ix.watched[c][0];
    var clients := RemoveFirst(if k in ix.watchers then ix.watchers[k] else [], c);
    ix.(watchers := if clients == [] then ix.watchers - {k} else ix.watchers[k := clients],
        watched := ix.watched[c := ix.watched[c][1..]])
  }

  function UnwatchAll(ix: Index, c: nat): Index
    decreases if c in ix.watched then |ix.watched[c]| else 0
  {
    if c !in ix.watched || ix.watched[c] == [] then ix else UnwatchAll(UnwatchFirst(ix, c), c)
  }

  function Members(s: seq<nat>): set<nat> {
    set c | c in s
  }

  /** touchWatchedKey. */
  function TouchKey(ix: Index, k: Pair): Index {
    if k in ix.watchers then ix.(dirty := ix.dirty + Members(ix.watchers[k])) else ix
  }

  /** Whether flushing `db` (or every database) removes the pair, `present` being
      the keys there are. */
  predicate Flushes(db: Option<nat>, present: set<Pair>, k: Pair) {
    (db == None || db.value == k.0) && k in present
  }

  predicate LosesKey(ix: Index, c: nat, db: Option<nat>, present: set<Pair>) {
    c in ix.watched && exists k :: k in ix.watched[c] && Flushes(db, present, k)
  }

  /** touchWatchedKeysOnFlush. */
  function TouchOnFlush(ix: Index, db: Option<nat>, present: set<Pair>): Index {
    ix.(dirty := ix.dirty + Losers(ix, ix.watched.Keys, db, present))
  }

  /** Those of the clients that watch a key the flush removes. */
  function Losers(ix: Index, clients: set<nat>, db: Option<nat>, present: set<Pair>): set<nat> {
    set c | c in clients && LosesKey(ix, c, db, present)
  }

  lemma {:induction false} RemoveFirstIs<T>(s: seq<T>, x: T)
    requires NoDup(s)
    ensures var r := RemoveFirst(s, x); NoDup(r) && forall y :: y in r <==> y in s && y != x
  {
    if s != [] {
      var t := s[1..];
      NoDupTail(s);
      RemoveFirstIs(t, x);
      if s[0] != x { NoDupCons(s[0], RemoveFirst(t, x)); }
      forall y ensures y in s <==> y == s[0] || y in t {
        assert s == [s[0]] + t;
      }
    }
  }

  lemma NoDupTail<T>(s: seq<T>)
    requires NoDup(s) && s != []
    ensures NoDup(s[1..]) && s[0] !in s[1..]
  {
    var t := s[1..];
    forall i, j | 0 <= i < j < |t| ensures t[i] != t[j] {
      assert s[i + 1] != s[j + 1];
    }
    forall i | 0 <= i < |t| ensures t[i] != s[0] {
      assert s[i + 1] != s[0];
    }
  }

  lemma NoDupCons<T>(x: T, s: seq<T>)
    requires NoDup(s) && x !in s
    ensures NoDup([x] + s)
  {
  }

  lemma NoDupAppend<T>(s: seq<T>, x: T)
    requires NoDup(s) && x !in s
    ensures NoDup(s + [x])
  {
  }

  lemma WatchKeyOk(ix: Index, c: nat, k: Pair)
    requires IndexOk(ix)
    ensures IndexOk(WatchKey(ix, c, k)) && WatchKey(ix, c, k).dirty == ix.dirty
    ensures forall d, l :: Watches(WatchKey(ix, c, k), d, l) <==> Watches(ix, d, l) || (d == c && l == k)
  {
    hide NoDup;
    if !Watches(ix, c, k) {
      var r := WatchKey(ix, c, k);
      assert !Listed(ix, c, k);
      var clients := if k in ix.watchers then ix.watchers[k] else [];
      var pairs := if c in ix.watched then ix.watched[c] else [];
      EmptyNoDup<nat>();
      EmptyNoDup<Pair>();
      NoDupAppend(clients, c);
      NoDupAppend(pairs, k);
      forall d, l ensures Watches(r, d, l) <==> Watches(ix, d, l) || (d == c && l == k)
                  ensures Listed(r, d, l) <==> Listed(ix, d, l) || (d == c && l == k)
      {
        assert r.watched[c] == pairs + [k] && r.watchers[k] == clients + [c];
      }
    }
  }

  lemma EmptyNoDup<T>()
    ensures NoDup<T>([])
  {
  }

  lemma UnwatchFirstOk(ix: Index, c: nat)
    requires IndexOk(ix) && c in ix.watched && ix.watched[c] != []
    ensures var r, k := UnwatchFirst(ix, c), ix.watched[c][0];
      && IndexOk(r) && r.dirty == ix.dirty
      && Listed(ix, c, k)
      && (forall d, l :: Watches(r, d, l) <==> Watches(ix, d, l) && (d != c || l != k))
  {
    var r, k := UnwatchFirst(ix, c), ix.watched[c][0];
    var pairs := ix.watched[c];
    assert Watches(ix, c, k);
    RemoveFirstIs(ix.watchers[k], c);
    RemoveFirstIs(pairs, k);
    assert RemoveFirst(pairs, k) == pairs[1..];
    hide NoDup, RemoveFirst;
    var clients := RemoveFirst(ix.watchers[k], c);
    forall d, l ensures Watches(r, d, l) <==> Watches(ix, d, l) && (d != c || l != k)
                ensures Listed(r, d, l) <==> Listed(ix, d, l) && (d != c || l != k)
    {
      assert r.watched[c] == pairs[1..];
      assert clients != [] ==> r.watchers[k] == clients;
      assert clients == [] ==> forall y :: y !in clients;
    }
  }

  lemma {:induction false} UnwatchAllOk(ix: Index, c: nat)
    requires IndexOk(ix)
    ensures IndexOk(UnwatchAll(ix, c)) && UnwatchAll(ix, c).dirty == ix.dirty
    ensures forall d, l :: Watches(UnwatchAll(ix, c), d, l) <==> Watches(ix, d, l) && d != c
    decreases if c in ix.watched then |ix.watched[c]| else 0
  {
    hide IndexOk, Listed;
    if c in ix.watched && ix.watched[c] != [] {
      UnwatchFirstOk(ix, c);
      UnwatchAllOk(UnwatchFirst(ix, c), c);
    }
  }

  lemma TouchKeyOk(ix: Index, k: Pair)
    requires IndexOk(ix)
    ensures IndexOk(TouchKey(ix, k))
    ensures forall d, l :: Watches(TouchKey(ix, k), d, l) == Watches(ix, d, l)
    ensures forall d :: d in TouchKey(ix, k).dirty <==> d in ix.dirty || Watches(ix, d, k)
  {
    hide NoDup;
    forall d, l ensures Watches(TouchKey(ix, k), d, l) == Watches(ix, d, l)
                ensures Listed(TouchKey(ix, k), d, l) == Listed(ix, d, l)
    {
    }
    forall d ensures d in TouchKey(ix, k).dirty <==> d in ix.dirty || Watches(ix, d, k) {
      assert Watches(ix, d, k) <==> Listed(ix, d, k);
    }
  }

  lemma TouchOnFlushOk(ix: Index, db: Option<nat>, present: set<Pair>)
    requires IndexOk(ix)
    ensures var r := TouchOnFlush(ix, db, present);
      && IndexOk(r)
      && (forall d, l :: Watches(r, d, l) == Watches(ix, d, l))
      && (forall d :: d in r.dirty <==> d in ix.dirty || LosesKey(ix, d, db, present))
  {
    hide NoDup, LosesKey;
    var r := TouchOnFlush(ix, db, present);
    forall d, l ensures Watches(r, d, l) == Watches(ix, d, l)
                ensures Listed(r, d, l) == Listed(ix, d, l)
    {
    }
    forall d | LosesKey(ix, d, db, present) ensures d in ix.watched {
      LoserKnown(ix, d, db, present);
    }
  }

  lemma LoserKnown(ix: Index, c: nat, db: Option<nat>, present: set<Pair>)
    requires LosesKey(ix, c, db, present)
    ensures c in ix.watched
  {
  }

  // ---- what has happened --------------------------------------------------

  /** A moment in the life of the index. A client forgets on EXEC, DISCARD, UNWATCH
      and when it disconnects. */
  datatype Moment =
    | Watched(client: nat, pair: Pair)
    | Forgot(client: nat)
    | Touched(pair: Pair)
    | FlushedDb(db: Option<nat>, present: set<Pair>)

  predicate Touches(m: Moment, k: Pair) {
    m == Touched(k) || (m.FlushedDb? && Flushes(m.db, m.present, k))
  }

  /** `c` has not forgotten since moment `i`. */
  ghost predicate Remembers(h: seq<Moment>, c: nat, i: nat) {
    forall l :: i <= l < |h| ==> h[l] != Forgot(c)
  }

  /** `c` asked for `k` and has not forgotten since. */
  ghost predicate Holds(h: seq<Moment>, c: nat, k: Pair) {
    exists i :: 0 <= i < |h| && h[i] == Watched(c, k) && Remembers(h, c, i)
  }

  /** At moment `i`, `k` was touched while `c` watched it. */
  ghost predicate Hit(h: seq<Moment>, c: nat, k: Pair, i: nat) {
    i < |h| && Touches(h[i], k) && Holds(h[..i], c, k)
  }

  /** A pair that `c` watches has been touched, and `c` has not forgotten since. */
  ghost predicate Dirtied(h: seq<Moment>, c: nat) {
    exists i: nat, k :: Hit(h, c, k, i) && Remembers(h, c, i)
  }

  function React(ix: Index, m: Moment): Index {
    match m
    case Watched(c, k) => WatchKey(ix, c, k)
    case Forgot(c) =>
      var u := UnwatchAll(ix, c);
      u.(dirty := u.dirty - {c})
    case Touched(k) => TouchKey(ix, k)
    case FlushedDb(db, present) => TouchOnFlush(ix, db, present)
  }

  lemma RemembersMore(h: seq<Moment>, m: Moment, c: nat, i: nat)
    requires i <= |h|
    ensures Remembers(h + [m], c, i) <==> Remembers(h, c, i) && m != Forgot(c)
  {
    var g := h + [m];
    assert g[|h|] == m && forall l :: 0 <= l < |h| ==> g[l] == h[l];
  }

  lemma HoldsMore(h: seq<Moment>, m: Moment, c: nat, k: Pair)
    ensures Holds(h + [m], c, k) <==> m == Watched(c, k) || (Holds(h, c, k) && m != Forgot(c))
  {
    hide Remembers;
    var g := h + [m];
    if Holds(g, c, k) && m != Watched(c, k) {
      var i :| 0 <= i < |g| && g[i] == Watched(c, k) && Remembers(g, c, i);
      RemembersMore(h, m, c, i);
    }
    if Holds(h, c, k) && m != Forgot(c) {
      var i :| 0 <= i < |h| && h[i] == Watched(c, k) && Remembers(h, c, i);
      RemembersMore(h, m, c, i);
      assert g[i] == h[i];
    }
    if m == Watched(c, k) {
      RemembersLast(h, m, c);
      assert g[|h|] == m;
    }
  }

  lemma RemembersLast(h: seq<Moment>, m: Moment, c: nat)
    requires m != Forgot(c)
    ensures Remembers(h + [m], c, |h|)
  {
  }

  lemma DirtiedMore(h: seq<Moment>, m: Moment, c: nat)
    ensures Dirtied(h + [m], c) <==>
      m != Forgot(c) && (Dirtied(h, c) || exists k :: Touches(m, k) && Holds(h, c, k))
  {
    hide Remembers, Touches, Holds;
    var g := h + [m];
    assert g[..|h|] == h && g[|h|] == m;
    if Dirtied(g, c) {
      var i: nat, k :| Hit(g, c, k, i) && Remembers(g, c, i);
      RemembersMore(h, m, c, i);
      if i < |h| {
        assert g[..i] == h[..i] && g[i] == h[i];
        assert Hit(h, c, k, i);
      }
    }
    if m != Forgot(c) {
      if Dirtied(h, c) {
        var i: nat, k :| Hit(h, c, k, i) && Remembers(h, c, i);
        RemembersMore(h, m, c, i);
        assert g[..i] == h[..i] && g[i] == h[i];
        assert Hit(g, c, k, i);
      }
      if k :| Touches(m, k) && Holds(h, c, k) {
        RemembersLast(h, m, c);
        assert Hit(g, c, k, |h|);
      }
    }
  }

  /** The index says what has happened. */
  ghost predicate Tells(ix: Index, h: seq<Moment>) {
    && IndexOk(ix)
    && (forall c, k :: Watches(ix, c, k) <==> Holds(h, c, k))
    && (forall c :: c in ix.dirty <==> Dirtied(h, c))
  }

  lemma TellsFirst()
    ensures Tells(Index(map[], map[], {}), [])
  {
  }

  lemma ReactWatch(ix: Index, h: seq<Moment>, m: Moment)
    requires Tells(ix, h) && m.Watched?
    ensures Tells(React(ix, m), h + [m])
  {
    hide IndexOk, Watches, Holds, Dirtied, WatchKey;
    WatchKeyOk(ix, m.client, m.pair);
    forall c, k ensures Watches(React(ix, m), c, k) <==> Holds(h + [m], c, k) { HoldsMore(h, m, c, k); }
    forall c ensures c in React(ix, m).dirty <==> Dirtied(h + [m], c) { DirtiedMore(h, m, c); }
  }

  lemma DirtyAside(ix: Index, dirty: set<nat>)
    ensures IndexOk(ix.(dirty := dirty)) == IndexOk(ix)
    ensures forall c, k :: Watches(ix.(dirty := dirty), c, k) == Watches(ix, c, k)
  {
    hide NoDup;
    var r := ix.(dirty := dirty);
    forall c, k ensures Watches(r, c, k) == Watches(ix, c, k) ensures Listed(r, c, k) == Listed(ix, c, k) {}
    if IndexOk(ix) { assert IndexOk(r); }
    if IndexOk(r) { assert IndexOk(ix); }
  }

  lemma ReactForget(ix: Index, h: seq<Moment>, m: Moment)
    requires Tells(ix, h) && m.Forgot?
    ensures Tells(React(ix, m), h + [m])
  {
    hide IndexOk, Watches, Holds, Dirtied, UnwatchAll;
    UnwatchAllOk(ix, m.client);
    var u := UnwatchAll(ix, m.client);
    DirtyAside(u, u.dirty - {m.client});
    forall c, k ensures Watches(React(ix, m), c, k) <==> Holds(h + [m], c, k) { HoldsMore(h, m, c, k); }
    forall c ensures c in React(ix, m).dirty <==> Dirtied(h + [m], c) { DirtiedMore(h, m, c); }
  }

  lemma ReactTouch(ix: Index, h: seq<Moment>, m: Moment)
    requires Tells(ix, h) && (m.Touched? || m.FlushedDb?)
    ensures Tells(React(ix, m), h + [m])
  {
    hide IndexOk, Watches, Holds, Dirtied, TouchKey, TouchOnFlush, LosesKey;
    if m.Touched? { TouchKeyOk(ix, m.pair); } else { TouchOnFlushOk(ix, m.db, m.present); }
    forall c, k ensures Watches(React(ix, m), c, k) <==> Holds(h + [m], c, k) { HoldsMore(h, m, c, k); }
    forall c ensures c in React(ix, m).dirty <==> Dirtied(h + [m], c) {
      DirtiedMore(h, m, c);
      if m.FlushedDb? { LosesHeld(ix, c, m.db, m.present); }
    }
  }

  lemma LosesHeld(ix: Index, c: nat, db: Option<nat>, present: set<Pair>)
    ensures LosesKey(ix, c, db, present) <==> exists k :: Watches(ix, c, k) && Touches(FlushedDb(db, present), k)
  {
    if LosesKey(ix, c, db, present) {
      var k :| k in ix.watched[c] && Flushes(db, present, k);
      assert Watches(ix, c, k);
    }
  }

  /** Whatever happens, each list of the index is what the other and the past say,
      and a client is dirty exactly when a pair was touched while it watched it
      and it has not forgotten since. */
  lemma ReactTells(ix: Index, h: seq<Moment>, m: Moment)
    requires Tells(ix, h)
    ensures Tells(React(ix, m), h + [m])
  {
    hide Tells, React;
    match m
    case Watched(_, _) => ReactWatch(ix, h, m);
    case Forgot(_) => ReactForget(ix, h, m);
    case Touched(_) => ReactTouch(ix, h, m);
    case FlushedDb(_, _) => ReactTouch(ix, h, m);
  }

  // ---- forgetting -----------------------------------------------------------

  /** The flags play no part in unwatching. */
  lemma {:induction false} UnwatchAllFlags(ix: Index, c: nat, dirty: set<nat>)
    ensures UnwatchAll(ix.(dirty := dirty), c) == UnwatchAll(ix, c).(dirty := dirty)
    decreases if c in ix.watched then |ix.watched[c]| else 0
  {
    if c in ix.watched && ix.watched[c] != [] {
      assert UnwatchFirst(ix.(dirty := dirty), c) == UnwatchFirst(ix, c).(dirty := dirty);
      UnwatchAllFlags(UnwatchFirst(ix, c), c, dirty);
    }
  }

  lemma {:induction false} UnwatchAllDirty(ix: Index, c: nat)
    ensures UnwatchAll(ix, c).dirty == ix.dirty
    decreases if c in ix.watched then |ix.watched[c]| else 0
  {
    if c in ix.watched && ix.watched[c] != [] {
      UnwatchAllDirty(UnwatchFirst(ix, c), c);
    }
  }

  /** Clearing the flag before unwatching, as EXEC and DISCARD do, comes to the same. */
  lemma ForgetEarly(ix: Index, c: nat)
    ensures React(ix.(dirty := ix.dirty - {c}), Forgot(c)) == React(ix, Forgot(c))
  {
    UnwatchAllFlags(ix, c, ix.dirty - {c});
    UnwatchAllDirty(ix, c);
    assert ix.dirty - {c} - {c} == ix.dirty - {c};
  }

  /** A client that watches nothing and is not dirty. */
  ghost predicate Free(h: seq<Moment>, c: nat) {
    !Dirtied(h, c) && forall k :: !Holds(h, c, k)
  }

  lemma FreeMore(h: seq<Moment>, m: Moment, c: nat)
    ensures m == Forgot(c) || (Free(h, c) && !(m.Watched? && m.client == c)) ==> Free(h + [m], c)
  {
    hide Holds, Dirtied, Touches;
    DirtiedMore(h, m, c);
    forall k ensures Holds(h + [m], c, k) <==> m == Watched(c, k) || (Holds(h, c, k) && m != Forgot(c)) {
      HoldsMore(h, m, c, k);
    }
  }
}
