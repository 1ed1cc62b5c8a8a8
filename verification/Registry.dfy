/** The function registry: two indexes kept in step by load, deploy and close, with rollback, and the
    manifest they persist and reload. */
module Registry {
  import opened Bytes

  const MAX_SOURCE := 64 * 1024

  /** A running function; `id` tells apart the objects created over time. */
  datatype Fn = Fn(id: nat, name: Bytes, route: Bytes, source: Bytes)

  datatype Stored = Stored(name: Bytes, route: Bytes, source: Bytes)

  // Validation.

  predicate NameByte(c: Byte) {
    97 <= c <= 122 || 48 <= c <= 57 || c == 45
  }

  predicate ValidName(name: Bytes) {
    0 < |name| <= 64 && forall i :: 0 <= i < |name| ==> NameByte(name[i])
  }

  predicate ValidRoute(route: Bytes) {
    && |route| > 0 && route[0] == 47
    && route != Ascii("/healthz") && route != Ascii("/v1") && !(Ascii("/v1/") <= route)
  }

  predicate ValidSource(source: Bytes) {
    0 < |source| <= MAX_SOURCE
  }

  predicate ValidStored(item: Stored) {
    ValidName(item.name) && ValidRoute(item.route) && ValidSource(item.source)
  }

  /** Names are 1 to 64 lower-case letters, digits and hyphens; routes begin with a slash and are neither
      the service's own nor below them. */
  lemma ValidIff(item: Stored)
    ensures ValidStored(item) <==>
            && 0 < |item.name| <= 64
            && (forall i :: 0 <= i < |item.name| ==>
                  97 <= item.name[i] <= 122 || 48 <= item.name[i] <= 57 || item.name[i] == 45)
            && |item.route| > 0 && item.route[0] == 47
            && item.route != Ascii("/healthz") && item.route != Ascii("/v1") && !(Ascii("/v1/") <= item.route)
            && 0 < |item.source| <= 65536
  {
    hide Ascii;
  }

  // The two indexes.

  datatype Indexes = Indexes(byName: map<Bytes, Fn>, byRoute: map<Bytes, Fn>)

  const NONE := Indexes(map[], map[])

  ghost predicate Inverse(x: Indexes) {
    && (forall n :: n in x.byName ==>
          x.byName[n].name == n && x.byName[n].route in x.byRoute && x.byRoute[x.byName[n].route] == x.byName[n])
    && (forall r :: r in x.byRoute ==>
          x.byRoute[r].route == r && x.byRoute[r].name in x.byName && x.byName[x.byRoute[r].name] == x.byRoute[r])
  }

  ghost predicate AllValid(x: Indexes) {
    forall n :: n in x.byName ==> ValidName(n) && ValidRoute(x.byName[n].route) && ValidSource(x.byName[n].source)
  }

  /** The functions that are registered, by id. */
  function Ids(x: Indexes): set<nat> {
    set n | n in x.byName :: x.byName[n].id
  }

  /** A route belongs to another function. */
  predicate Taken(x: Indexes, name: Bytes, route: Bytes) {
    route in x.byRoute && x.byRoute[route].name != name
  }

  /** Register a function, replacing the one of the same name. */
  function Install(x: Indexes, fn: Fn): Indexes {
    var routes := if fn.name in x.byName then x.byRoute - {x.byName[fn.name].route} else x.byRoute;
    Indexes(x.byName[fn.name := fn], routes[fn.route := fn])
  }

  lemma InstallKeepsInverse(x: Indexes, fn: Fn)
    requires Inverse(x) && !Taken(x, fn.name, fn.route)
    ensures Inverse(Install(x, fn))
  {
    var y := Install(x, fn);
    forall n | n in y.byName
      ensures y.byName[n].name == n && y.byName[n].route in y.byRoute && y.byRoute[y.byName[n].route] == y.byName[n]
    {
      if n != fn.name { assert n in x.byName; }
    }
    forall r | r in y.byRoute
      ensures y.byRoute[r].route == r && y.byRoute[r].name in y.byName && y.byName[y.byRoute[r].name] == y.byRoute[r]
    {
      if r != fn.route { assert r in x.byRoute; }
    }
  }

  // The registry as a machine over atomic steps.

  /** What goes wrong while a manifest is written. `short` is a write that stops before the end of the
      JSON document; nobody looks at the errors of the write and of the sync. */
  datatype Faults = Faults(open: bool, short: bool, sync: bool, close: bool, rename: bool, directory: bool)

  const NO_FAULTS := Faults(false, false, false, false, false, false)

  /** Reported before the new file has taken the place of the old one. */
  predicate Early(f: Faults) {
    f.open || f.close || f.rename
  }

  /** Reported, though the new file is in place. */
  predicate Late(f: Faults) {
    !Early(f) && f.directory
  }

  /** The manifest's file: part of a JSON document is not one, so a torn file cannot be read. */
  datatype Disk<+T> = Missing | Manifest(contents: T) | Torn

  datatype Reason = BadName | BadRoute | BadSource | CompileFailed | RouteTaken | PersistFailed

  datatype Result = Deployed | Refused(reason: Reason)

  datatype Request = Request(item: Stored, starts: bool, faults: Faults)

  datatype State = State(
    x: Indexes,
    nextId: nat,       // functions created so far
    open: set<nat>,    // functions created and not closed
    disk: Disk<map<Bytes, Stored>>)

  const INITIAL := State(NONE, 0, {}, Missing)

  function StoredOf(fn: Fn): Stored {
    Stored(fn.name, fn.route, fn.source)
  }

  /** What the manifest of a registry says. */
  function Contents(x: Indexes): map<Bytes, Stored> {
    map n | n in x.byName :: StoredOf(x.byName[n])
  }

  /** What the rename puts in place. */
  function Written(f: Faults, x: Indexes): Disk<map<Bytes, Stored>> {
    if f.short then Torn else Manifest(Contents(x))
  }

  datatype Effect = Effect(state: State, result: Result)

  /** `deploy`: replace the whole function and persist, or change nothing in memory. */
  function Deploy(s: State, q: Request): Effect {
    var item := q.item;
    if !ValidName(item.name) then Effect(s, Refused(BadName))
    else if !ValidRoute(item.route) then Effect(s, Refused(BadRoute))
    else if !ValidSource(item.source) then Effect(s, Refused(BadSource))
    else if !q.starts then Effect(s, Refused(CompileFailed))
    else
      var fn := Fn(s.nextId, item.name, item.route, item.source);
      var s' := s.(nextId := s.nextId + 1);
      if Taken(s.x, item.name, item.route) then Effect(s', Refused(RouteTaken))
      else
        var y := Install(s.x, fn);
        var kept := if item.name in s.x.byName then s.open - {s.x.byName[item.name].id} else s.open;
        var disk := Written(q.faults, y);
        if Early(q.faults) then Effect(s', Refused(PersistFailed))
        else if Late(q.faults) then Effect(s'.(disk := disk), Refused(PersistFailed))
        else Effect(State(y, s.nextId + 1, kept + {fn.id}, disk), Deployed)
  }

  function CloseAll(s: State): State {
    s.(x := NONE, open := s.open - Ids(s.x))
  }

  datatype Op = DeployOp(request: Request) | CloseOp

  function Do(s: State, op: Op): State {
    match op
    case DeployOp(q) => Deploy(s, q).state
    case CloseOp => CloseAll(s)
  }

  function Run(s: State, ops: seq<Op>): State
    decreases ops
  {
    if ops == [] then s else Run(Do(s, ops[0]), ops[1..])
  }

  /** The indexes are inverse, every entry is valid, and the functions created but not closed are
      exactly those registered. */
  ghost predicate Inv(s: State) {
    && Inverse(s.x) && AllValid(s.x)
    && s.open == Ids(s.x)
    && (forall n :: n in s.x.byName ==> s.x.byName[n].id < s.nextId)
    && (forall m, n :: m in s.x.byName && n in s.x.byName && m != n ==> s.x.byName[m].id != s.x.byName[n].id)
  }

  lemma IdsOfInstall(s: State, fn: Fn)
    requires Inv(s) && fn.id == s.nextId
    ensures Ids(Install(s.x, fn)) ==
            (if fn.name in s.x.byName then s.open - {s.x.byName[fn.name].id} else s.open) + {fn.id}
  {
    hide Inverse, AllValid;
    var y := Install(s.x, fn);
    var kept := if fn.name in s.x.byName then s.open - {s.x.byName[fn.name].id} else s.open;
    forall id ensures id in Ids(y) <==> id in kept + {fn.id} {
      if id in Ids(y) {
        var n :| n in y.byName && y.byName[n].id == id;
        if n != fn.name { assert n in s.x.byName && s.x.byName[n] == y.byName[n]; }
      }
      if id in kept {
        var n :| n in s.x.byName && s.x.byName[n].id == id;
        assert n in y.byName && y.byName[n] == s.x.byName[n];
      }
      if id == fn.id { assert y.byName[fn.name] == fn; }
    }
  }

  lemma DeployKeeps(s: State, q: Request)
    requires Inv(s)
    ensures Inv(Deploy(s, q).state)
    ensures Deploy(s, q).result.Refused? ==> Deploy(s, q).state.x == s.x && Deploy(s, q).state.open == s.open
  {
    hide Inverse, Ids, ValidName, ValidRoute, ValidSource;
    var item := q.item;
    var fn := Fn(s.nextId, item.name, item.route, item.source);
    if Deploy(s, q).result == Deployed {
      InstallKeepsInverse(s.x, fn);
      IdsOfInstall(s, fn);
    }
  }

  /** In every run the two indexes stay inverse and the functions open are exactly those registered. */
  lemma {:induction false} RunKeeps(s: State, ops: seq<Op>)
    requires Inv(s)
    ensures Inv(Run(s, ops))
    decreases ops
  {
    if ops != [] {
      if ops[0].DeployOp? { DeployKeeps(s, ops[0].request); }
      hide Deploy, Inverse, AllValid;
      RunKeeps(Do(s, ops[0]), ops[1..]);
    }
  }

  // Reloading.

  /** `newService` over the items of a manifest; `starts` says which functions come up. */
  function Reload(items: seq<Stored>, starts: seq<bool>, x: Indexes, id: nat): Option<Indexes>
    requires |starts| == |items|
    decreases items
  {
    if items == [] then Some(x)
    else
      var item := items[0];
      if !ValidStored(item) || item.name in x.byName || item.route in x.byRoute || !starts[0] then None
      else
        var fn := Fn(id, item.name, item.route, item.source);
        Reload(items[1..], starts[1..], Indexes(x.byName[fn.name := fn], x.byRoute[fn.route := fn]), id + 1)
  }

  /** A service that loads any manifest starts out in step: so RunKeeps covers every later run. */
  lemma {:induction false} ReloadStartsWell(items: seq<Stored>, starts: seq<bool>, x: Indexes, id: nat,
                                            disk: Disk<map<Bytes, Stored>>)
    requires |starts| == |items| && Inv(State(x, id, Ids(x), disk))
    ensures var r := Reload(items, starts, x, id);
            r.Some? ==> Inv(State(r.value, id + |items|, Ids(r.value), disk))
    decreases items
  {
    hide ValidName, ValidRoute, ValidSource, Ids, Inverse;
    if items != [] && Reload(items, starts, x, id).Some? {
      var item := items[0];
      var fn := Fn(id, item.name, item.route, item.source);
      var y := Indexes(x.byName[fn.name := fn], x.byRoute[fn.route := fn]);
      assert y == Install(x, fn);
      InstallKeepsInverse(x, fn);
      ReloadStartsWell(items[1..], starts[1..], y, id + 1, disk);
    }
  }

  /** A manifest lists each registered function once, in some order, and nothing else. */
  ghost predicate Lists(items: seq<Stored>, contents: map<Bytes, Stored>) {
    && (forall i, j :: 0 <= i < j < |items| ==> items[i].name != items[j].name)
    && (forall i :: 0 <= i < |items| ==> items[i].name in contents && contents[items[i].name] == items[i])
    && (forall n :: n in contents ==> exists i :: 0 <= i < |items| && items[i].name == n)
  }

  /** `x` holds exactly the first i items. */
  ghost predicate Holds(x: Indexes, items: seq<Stored>, i: nat)
    requires i <= |items|
  {
    && Inverse(x)
    && (forall k :: 0 <= k < i ==> items[k].name in x.byName && StoredOf(x.byName[items[k].name]) == items[k])
    && (forall n :: n in x.byName ==> exists k :: 0 <= k < i && items[k].name == n)
  }

  lemma {:induction false} ReloadFrom(x: Indexes, items: seq<Stored>, i: nat, y: Indexes, id: nat)
    requires Inverse(x) && AllValid(x) && Lists(items, Contents(x)) && i <= |items| && Holds(y, items, i)
    ensures var r := Reload(items[i..], seq(|items| - i, _ => true), y, id);
            r.Some? && Holds(r.value, items, |items|)
    decreases |items| - i
  {
    hide Inverse, AllValid, Lists, Holds, Contents, ValidStored;
    var rest, starts := items[i..], seq(|items| - i, _ => true);
    if i < |items| {
      var item := items[i];
      assert rest[0] == item && rest[1..] == items[i + 1..];
      assert starts[1..] == seq(|items| - (i + 1), _ => true);
      var fn := Fn(id, item.name, item.route, item.source);
      NotYet(x, items, i, y);
      var y' := Indexes(y.byName[fn.name := fn], y.byRoute[fn.route := fn]);
      HoldsNext(items, i, y, fn);
      ReloadFrom(x, items, i + 1, y', id + 1);
    }
  }

  /** The next item of a manifest is valid and clashes with none before it, by name or by route. */
  lemma NotYet(x: Indexes, items: seq<Stored>, i: nat, y: Indexes)
    requires Inverse(x) && AllValid(x) && Lists(items, Contents(x)) && i < |items| && Holds(y, items, i)
    ensures ValidStored(items[i]) && items[i].name !in y.byName && items[i].route !in y.byRoute
  {
    hide ValidName, ValidRoute, ValidSource;
    var item := items[i];
    assert item.name in x.byName && StoredOf(x.byName[item.name]) == item;
    forall r | r in y.byRoute ensures r != item.route {
      var n := y.byRoute[r].name;
      var k :| 0 <= k < i && items[k].name == n;
      assert items[k].route == r;
      RoutesDiffer(x, n, item.name);
    }
  }

  lemma RoutesDiffer(x: Indexes, m: Bytes, n: Bytes)
    requires Inverse(x) && m in x.byName && n in x.byName && m != n
    ensures x.byName[m].route != x.byName[n].route
  {
  }

  lemma HoldsNext(items: seq<Stored>, i: nat, y: Indexes, fn: Fn)
    requires i < |items| && Holds(y, items, i) && StoredOf(fn) == items[i]
    requires fn.name !in y.byName && fn.route !in y.byRoute
    ensures Holds(Indexes(y.byName[fn.name := fn], y.byRoute[fn.route := fn]), items, i + 1)
  {
    var y' := Indexes(y.byName[fn.name := fn], y.byRoute[fn.route := fn]);
    assert y' == Install(y, fn);
    InstallKeepsInverse(y, fn);
    hide Inverse, Install;
    forall k | 0 <= k < i + 1
      ensures items[k].name in y'.byName && StoredOf(y'.byName[items[k].name]) == items[k]
    {
      if k < i { assert items[k].name in y.byName && StoredOf(y.byName[items[k].name]) == items[k]; }
    }
    forall n | n in y'.byName ensures exists k :: 0 <= k < i + 1 && items[k].name == n {
      if n == fn.name { assert items[i].name == n; } else {
        assert n in y.byName;
        var k :| 0 <= k < i && items[k].name == n;
      }
    }
  }

  /** Reloading a manifest that lists a registry's functions, in any order, rebuilds exactly the same
      names, routes and sources; it is never rejected as duplicate or invalid. */
  lemma ReloadRebuilds(x: Indexes, items: seq<Stored>, id: nat)
    requires Inverse(x) && AllValid(x) && Lists(items, Contents(x))
    ensures var r := Reload(items, seq(|items|, _ => true), NONE, id);
            r.Some? && Contents(r.value) == Contents(x) && Inverse(r.value)
  {
    hide Reload, Lists, AllValid;
    assert Holds(NONE, items, 0);
    ReloadFrom(x, items, 0, NONE, id);
    assert items[0..] == items;
    HeldIsListed(Reload(items, seq(|items|, _ => true), NONE, id).value, items, Contents(x));
  }

  lemma HeldIsListed(y: Indexes, items: seq<Stored>, contents: map<Bytes, Stored>)
    requires Holds(y, items, |items|) && Lists(items, contents)
    ensures Contents(y) == contents
  {
    hide Inverse;
    forall n ensures n in Contents(y) <==> n in contents {
      if n in contents { var i :| 0 <= i < |items| && items[i].name == n; }
    }
    forall n | n in contents ensures Contents(y)[n] == contents[n] {
      var i :| 0 <= i < |items| && items[i].name == n;
    }
  }

  /** A manifest is taken up if and only if every item is valid and comes up, and no two share a name or
      a route - with each other or with what is there. */
  lemma {:induction false} ReloadIff(items: seq<Stored>, starts: seq<bool>, x: Indexes, id: nat)
    requires |starts| == |items|
    ensures Reload(items, starts, x, id).Some? <==>
            && (forall i :: 0 <= i < |items| ==> ValidStored(items[i]) && starts[i])
            && (forall i, j :: 0 <= i < j < |items| ==>
                  items[i].name != items[j].name && items[i].route != items[j].route)
            && (forall i :: 0 <= i < |items| ==> items[i].name !in x.byName && items[i].route !in x.byRoute)
    decreases items
  {
    hide ValidStored;
    if items != [] {
      var item, rest, more := items[0], items[1..], starts[1..];
      assert forall i :: 0 <= i < |rest| ==> rest[i] == items[i + 1] && more[i] == starts[i + 1];
      assert forall i :: 0 < i < |items| ==> items[i] == rest[i - 1] && starts[i] == more[i - 1];
      var fn := Fn(id, item.name, item.route, item.source);
      var y := Indexes(x.byName[fn.name := fn], x.byRoute[fn.route := fn]);
      ReloadIff(rest, more, y, id + 1);
      assert Reload(items, starts, x, id).Some? <==>
             && ValidStored(item) && starts[0] && item.name !in x.byName && item.route !in x.byRoute
             && Reload(rest, more, y, id + 1).Some?;
    }
  }

  // What is registered, said of the requests.

  /** A deploy succeeds exactly when its request is valid, starts, takes nobody's route and is persisted
      without a reported failure; then the item replaces the one of its name and nothing else changes,
      and otherwise nothing does. Every refusal has its reason. */
  lemma DeployIff(s: State, q: Request)
    requires Inv(s)
    ensures var e := Deploy(s, q);
            && (e.result == Deployed <==> Persists(s, q) && !Early(q.faults) && !Late(q.faults))
            && Contents(e.state.x) ==
               (if e.result == Deployed then Contents(s.x)[q.item.name := q.item] else Contents(s.x))
            && (e.result == Refused(BadName) <==> !ValidName(q.item.name))
            && (e.result == Refused(BadRoute) <==> ValidName(q.item.name) && !ValidRoute(q.item.route))
            && (e.result == Refused(RouteTaken) <==>
                  && ValidStored(q.item) && q.starts
                  && exists n :: n in Contents(s.x) && n != q.item.name && Contents(s.x)[n].route == q.item.route)
            && (e.result == Refused(PersistFailed) <==> Persists(s, q) && (Early(q.faults) || Late(q.faults)))
  {
    hide ValidName, ValidRoute, ValidSource, Inverse, AllValid, Taken;
    TakenIff(s.x, q.item.name, q.item.route);
    InstallContents(s.x, Fn(s.nextId, q.item.name, q.item.route, q.item.source));
  }

  /** The results of a sequence of deploys. */
  function Results(s: State, qs: seq<Request>): (r: seq<Result>)
    ensures |r| == |qs|
    decreases qs
  {
    if qs == [] then [] else [Deploy(s, qs[0]).result] + Results(Deploy(s, qs[0]).state, qs[1..])
  }

  /** Request i is the last to have deployed this name. */
  ghost predicate LastFor(s: State, qs: seq<Request>, name: Bytes, i: int) {
    && 0 <= i < |qs| && qs[i].item.name == name && Results(s, qs)[i] == Deployed
    && forall j :: i < j < |qs| && qs[j].item.name == name ==> Results(s, qs)[j] != Deployed
  }

  /** After any sequence of deploys, a name stands for what was last deployed under it successfully, or
      for what it stood for before. */
  lemma {:induction false} LastDeployWins(s: State, qs: seq<Request>, name: Bytes)
    requires Inv(s)
    ensures var c := Contents(DeployAll(s, qs).x);
            && (forall i :: LastFor(s, qs, name, i) ==> name in c && c[name] == qs[i].item)
            && ((forall i :: !LastFor(s, qs, name, i)) ==>
                  (name in c <==> name in Contents(s.x)) && (name in c ==> c[name] == Contents(s.x)[name]))
    decreases qs
  {
    hide Deploy, Inv, Contents;
    if qs != [] {
      var e, rest := Deploy(s, qs[0]), qs[1..];
      DeployKeeps(s, qs[0]);
      DeployIff(s, qs[0]);
      LastDeployWins(e.state, rest, name);
      LastCons(s, qs, name);
    }
  }

  lemma LastCons(s: State, qs: seq<Request>, name: Bytes)
    requires qs != []
    ensures var e, rest := Deploy(s, qs[0]), qs[1..];
            && (forall i :: i > 0 ==> (LastFor(s, qs, name, i) <==> LastFor(e.state, rest, name, i - 1)))
            && (LastFor(s, qs, name, 0) <==>
                  && qs[0].item.name == name && e.result == Deployed
                  && forall i :: !LastFor(e.state, rest, name, i))
            && (forall i :: LastFor(e.state, rest, name, i) ==> LastFor(s, qs, name, i + 1))
  {
    hide Deploy, Results, LastFor;
    var e, rest := Deploy(s, qs[0]), qs[1..];
    forall i | i > 0 ensures LastFor(s, qs, name, i) <==> LastFor(e.state, rest, name, i - 1) {
      LastShift(s, qs, name, i);
    }
    forall i | LastFor(e.state, rest, name, i) ensures LastFor(s, qs, name, i + 1) {
      NotNegative(e.state, rest, name, i);
      LastShift(s, qs, name, i + 1);
    }
    LastFirst(s, qs, name);
  }

  lemma NotNegative(s: State, qs: seq<Request>, name: Bytes, i: int)
    requires LastFor(s, qs, name, i)
    ensures i >= 0
  {
  }

  lemma ResultsCons(s: State, qs: seq<Request>, j: nat)
    requires 0 < j < |qs|
    ensures qs[j] == qs[1..][j - 1] && Results(s, qs)[j] == Results(Deploy(s, qs[0]).state, qs[1..])[j - 1]
  {
    hide Deploy;
  }

  lemma LastShift(s: State, qs: seq<Request>, name: Bytes, i: int)
    requires qs != [] && i > 0
    ensures LastFor(s, qs, name, i) <==> LastFor(Deploy(s, qs[0]).state, qs[1..], name, i - 1)
  {
    hide Deploy, Results;
    var t, rest := Deploy(s, qs[0]).state, qs[1..];
    if i < |qs| {
      ResultsCons(s, qs, i);
      if LastFor(s, qs, name, i) {
        forall j | i - 1 < j < |rest| && rest[j].item.name == name ensures Results(t, rest)[j] != Deployed {
          ResultsCons(s, qs, j + 1);
        }
      }
      if LastFor(t, rest, name, i - 1) {
        forall j | i < j < |qs| && qs[j].item.name == name ensures Results(s, qs)[j] != Deployed {
          ResultsCons(s, qs, j);
          assert rest[j - 1].item.name == name;
        }
      }
    }
  }

  lemma LastFirst(s: State, qs: seq<Request>, name: Bytes)
    requires qs != []
    ensures var e, rest := Deploy(s, qs[0]), qs[1..];
            LastFor(s, qs, name, 0) <==>
            qs[0].item.name == name && e.result == Deployed && forall i :: !LastFor(e.state, rest, name, i)
  {
    hide Deploy;
    var e, rest := Deploy(s, qs[0]), qs[1..];
    assert Results(s, qs)[0] == e.result;
    hide Results;
    if LastFor(s, qs, name, 0) {
      forall i ensures !LastFor(e.state, rest, name, i) {
        if 0 <= i < |rest| { ResultsCons(s, qs, i + 1); }
      }
    }
    if forall i :: !LastFor(e.state, rest, name, i) {
      NoneDeployed(e.state, rest, name, |rest|);
      forall j | 0 < j < |qs| && qs[j].item.name == name ensures Results(s, qs)[j] != Deployed {
        ResultsCons(s, qs, j);
      }
    }
  }

  /** If there is no last one, there is none. */
  lemma {:induction false} NoneDeployed(s: State, qs: seq<Request>, name: Bytes, k: nat)
    requires k <= |qs| && forall i :: !LastFor(s, qs, name, i)
    ensures forall j :: |qs| - k <= j < |qs| && qs[j].item.name == name ==> Results(s, qs)[j] != Deployed
  {
    hide Results;
    if k > 0 {
      NoneDeployed(s, qs, name, k - 1);
      assert !LastFor(s, qs, name, |qs| - k);
    }
  }

  /** Closing leaves nothing registered and nothing running. */
  lemma CloseEmpties(s: State)
    requires Inv(s)
    ensures CloseAll(s).x == NONE && CloseAll(s).open == {} && CloseAll(s).disk == s.disk
  {
  }

  // Disk and memory.

  /** Disk and memory say the same. */
  ghost predicate Synced(s: State) {
    match s.disk
    case Missing => s.x == NONE
    case Manifest(contents) => contents == Contents(s.x)
    case Torn => false
  }

  /** The deploy gets as far as writing the manifest. */
  predicate Persists(s: State, q: Request) {
    ValidStored(q.item) && q.starts && !Taken(s.x, q.item.name, q.item.route)
  }

  /** Exactly when disk and memory agree after a deploy: where nothing took the old manifest's place,
      if they agreed before; otherwise if the new one was written whole and, in case a failure was
      reported all the same, what was being deployed was there already. */
  lemma SyncedIff(s: State, q: Request)
    requires Inv(s)
    ensures Synced(Deploy(s, q).state) <==>
            if !Persists(s, q) || Early(q.faults) then Synced(s)
            else
              && !q.faults.short
              && (Late(q.faults) ==> q.item.name in s.x.byName && StoredOf(s.x.byName[q.item.name]) == q.item)
  {
    hide ValidName, ValidRoute, ValidSource, Inverse, AllValid;
    var item := q.item;
    var fn := Fn(s.nextId, item.name, item.route, item.source);
    var y := Install(s.x, fn);
    assert Contents(y)[item.name] == item;
    assert Contents(y) == Contents(s.x)[item.name := item];
  }

  /** A short write is never noticed: it changes nothing but the file. */
  lemma ShortWriteGoesUnnoticed(s: State, q: Request)
    ensures var whole := Deploy(s, q.(faults := q.faults.(short := false)));
            var torn := Deploy(s, q.(faults := q.faults.(short := true)));
            && torn.result == whole.result && torn.state.(disk := whole.state.disk) == whole.state
            && (whole.result == Deployed ==> torn.state.disk == Torn)
  {
    hide ValidName, ValidRoute, ValidSource;
  }

  const SAMPLE := Stored(Ascii("a"), Ascii("/a"), [0])

  /** The first deploy of a service, reported as a success, can leave a file from which no service
      starts again. */
  lemma TornDeploySucceeds()
    ensures var e := Deploy(INITIAL, Request(SAMPLE, true, NO_FAULTS.(short := true)));
            && e.result == Deployed && SAMPLE.name in e.state.x.byName && e.state.disk == Torn && !Synced(e.state)
            && forall items :: Restart(e.state, items) == None
  {
    SampleIsValid();
    hide Ascii;
  }

  /** A deploy that is refused because of a failure after the rename: memory does not have the
      function, the file does, and the next service runs it. */
  lemma RefusedDeployReturns()
    ensures var e := Deploy(INITIAL, Request(SAMPLE, true, NO_FAULTS.(directory := true)));
            && e.result == Refused(PersistFailed) && e.state.x == NONE && !Synced(e.state)
            && e.state.disk == Manifest(map[SAMPLE.name := SAMPLE])
            && var r := Restart(e.state, [SAMPLE]);
               r.Some? && SAMPLE.name in r.value.x.byName && StoredOf(r.value.x.byName[SAMPLE.name]) == SAMPLE
  {
    SampleIsValid();
    hide Ascii, ValidStored;
    var fn := Fn(0, SAMPLE.name, SAMPLE.route, SAMPLE.source);
    var y := Install(NONE, fn);
    assert Contents(y) == map[SAMPLE.name := SAMPLE];
    assert [SAMPLE][1..] == [] && seq(1, _ => true)[1..] == [];
    assert Reload([SAMPLE][1..], seq(1, _ => true)[1..], y, 1) == Some(y);
    assert Reload([SAMPLE], seq(1, _ => true), NONE, 0) == Some(y);
  }

  lemma SampleIsValid()
    ensures ValidStored(SAMPLE)
  {
    assert SAMPLE.name == [97] && SAMPLE.route == [47, 97];
    assert |Ascii("/healthz")| == 8 && |Ascii("/v1")| == 3 && |Ascii("/v1/")| == 4;
  }

  // Restarts.

  /** A new service in the same directory, all its functions coming up; `items` is the manifest as it
      is listed in the file. It does not start on a torn file. */
  function Restart(s: State, items: seq<Stored>): Option<State> {
    match s.disk
    case Missing => Some(INITIAL)
    case Torn => None
    case Manifest(_) =>
      var r := Reload(items, seq(|items|, _ => true), NONE, 0);
      if r.None? then None else Some(State(r.value, |items|, Ids(r.value), s.disk))
  }

  ghost predicate Listing(s: State, items: seq<Stored>) {
    s.disk.Manifest? ==> Lists(items, s.disk.contents)
  }

  /** The same functions under the same names and routes, and the same file. */
  ghost predicate Alike(s: State, t: State) {
    Contents(s.x) == Contents(t.x) && s.disk == t.disk
  }

  /** Every state in which disk and memory agree survives a restart. */
  lemma RestartFindsTheSame(s: State, items: seq<Stored>)
    requires Inv(s) && Synced(s) && Listing(s, items)
    ensures var r := Restart(s, items);
            r.Some? && Alike(r.value, s) && Inv(r.value) && Synced(r.value)
  {
    hide Inverse, AllValid, Reload, Lists;
    EmptyIsFine(s.disk);
    if s.disk.Manifest? {
      ReloadRebuilds(s.x, items, 0);
      ReloadStartsWell(items, seq(|items|, _ => true), NONE, 0, s.disk);
    }
  }

  lemma EmptyIsFine(disk: Disk<map<Bytes, Stored>>)
    ensures Inv(State(NONE, 0, Ids(NONE), disk)) && Ids(NONE) == {}
  {
  }

  /** With inverse indexes, whether a route is taken can be told from the contents. */
  lemma TakenIff(x: Indexes, name: Bytes, route: Bytes)
    requires Inverse(x)
    ensures Taken(x, name, route) <==> exists n :: n in Contents(x) && n != name && Contents(x)[n].route == route
  {
    if Taken(x, name, route) {
      var n := x.byRoute[route].name;
      assert n in Contents(x) && n != name && Contents(x)[n].route == route;
    }
  }

  /** A deploy does the same to states that are alike. */
  lemma DeployAlike(s: State, t: State, q: Request)
    requires Inv(s) && Inv(t) && Alike(s, t)
    ensures Deploy(s, q).result == Deploy(t, q).result && Alike(Deploy(s, q).state, Deploy(t, q).state)
  {
    hide ValidName, ValidRoute, ValidSource, Inverse, AllValid, Taken;
    var item := q.item;
    TakenIff(s.x, item.name, item.route);
    TakenIff(t.x, item.name, item.route);
    InstallContents(s.x, Fn(s.nextId, item.name, item.route, item.source));
    InstallContents(t.x, Fn(t.nextId, item.name, item.route, item.source));
  }

  lemma InstallContents(x: Indexes, fn: Fn)
    ensures Contents(Install(x, fn)) == Contents(x)[fn.name := StoredOf(fn)]
  {
  }

  /** One run of the service: what it is asked to deploy, and the manifest as the next run lists it. */
  datatype Life = Life(requests: seq<Request>, items: seq<Stored>)

  function DeployAll(s: State, qs: seq<Request>): State
    decreases qs
  {
    if qs == [] then s else DeployAll(Deploy(s, qs[0]).state, qs[1..])
  }

  function Requests(lives: seq<Life>): seq<Request> {
    if lives == [] then [] else lives[0].requests + Requests(lives[1..])
  }

  function LiveAll(s: State, lives: seq<Life>): Option<State>
    decreases lives
  {
    if lives == [] then Some(s)
    else
      var r := Restart(DeployAll(s, lives[0].requests), lives[0].items);
      if r.None? then None else LiveAll(r.value, lives[1..])
  }

  /** Every restart reads the file that is there. */
  ghost predicate ListingAll(s: State, lives: seq<Life>)
    decreases lives
  {
    lives == [] ||
    var t := DeployAll(s, lives[0].requests);
    var r := Restart(t, lives[0].items);
    Listing(t, lives[0].items) && (r.Some? ==> ListingAll(r.value, lives[1..]))
  }

  /** Persists in full, or fails before the rename. */
  predicate Clean(f: Faults) {
    Early(f) || (!f.short && !f.directory)
  }

  lemma {:induction false} CleanRun(s: State, qs: seq<Request>)
    requires Inv(s) && Synced(s) && forall i :: 0 <= i < |qs| ==> Clean(qs[i].faults)
    ensures Inv(DeployAll(s, qs)) && Synced(DeployAll(s, qs))
    decreases qs
  {
    hide Inv, Synced, Deploy;
    if qs != [] {
      DeployKeeps(s, qs[0]);
      SyncedIff(s, qs[0]);
      CleanRun(Deploy(s, qs[0]).state, qs[1..]);
    }
  }

  lemma {:induction false} RunAlike(s: State, t: State, qs: seq<Request>)
    requires Inv(s) && Inv(t) && Alike(s, t)
    ensures Inv(DeployAll(t, qs)) && Alike(DeployAll(s, qs), DeployAll(t, qs))
    decreases qs
  {
    hide Inv, Alike, Deploy;
    if qs != [] {
      DeployKeeps(s, qs[0]);
      DeployKeeps(t, qs[0]);
      DeployAlike(s, t, qs[0]);
      RunAlike(Deploy(s, qs[0]).state, Deploy(t, qs[0]).state, qs[1..]);
    }
  }

  lemma {:induction false} DeployAllAppend(s: State, a: seq<Request>, b: seq<Request>)
    ensures DeployAll(s, a + b) == DeployAll(DeployAll(s, a), b)
    decreases a
  {
    hide Deploy;
    if a == [] {
      assert a + b == b;
    } else {
      assert (a + b)[1..] == a[1..] + b;
      DeployAllAppend(Deploy(s, a[0]).state, a[1..], b);
    }
  }

  /** Restarts are invisible: however a sequence of deploys with clean persists is spread over runs of
      the service, every restart succeeds, and what is registered and stored in the end is what one
      uninterrupted run would have come to. */
  lemma {:induction false} RestartsAreInvisible(s: State, t: State, lives: seq<Life>)
    requires Inv(s) && Synced(s) && Inv(t) && Alike(s, t) && ListingAll(s, lives)
    requires forall k :: 0 <= k < |lives| ==>
               forall i :: 0 <= i < |lives[k].requests| ==> Clean(lives[k].requests[i].faults)
    ensures var r := LiveAll(s, lives);
            r.Some? && Inv(r.value) && Synced(r.value) && Alike(r.value, DeployAll(t, Requests(lives)))
    decreases lives
  {
    hide Inv, Synced, Listing, DeployAll, Restart, Clean;
    if lives == [] {
      NoRequests(t);
    } else {
      var life, rest := lives[0], lives[1..];
      var u, v := DeployAll(s, life.requests), DeployAll(t, life.requests);
      CleanRun(s, life.requests);
      RunAlike(s, t, life.requests);
      RestartFindsTheSame(u, life.items);
      assert forall k :: 0 <= k < |rest| ==> rest[k] == lives[k + 1];
      RestartsAreInvisible(Restart(u, life.items).value, v, rest);
      DeployAllAppend(t, life.requests, Requests(rest));
    }
  }

  lemma NoRequests(s: State)
    ensures DeployAll(s, []) == s
  {
  }

  /** From the first start on. */
  lemma LivesFromTheStart(lives: seq<Life>)
    requires ListingAll(INITIAL, lives)
    requires forall k :: 0 <= k < |lives| ==>
               forall i :: 0 <= i < |lives[k].requests| ==> Clean(lives[k].requests[i].faults)
    ensures var r := LiveAll(INITIAL, lives);
            r.Some? && Alike(r.value, DeployAll(INITIAL, Requests(lives)))
  {
    hide ListingAll, LiveAll, DeployAll;
    RestartsAreInvisible(INITIAL, INITIAL, lives);
  }
}
