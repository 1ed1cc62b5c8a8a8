/** The service object: its maps mutated in place, rollback after a failed persist, and the loop that
    loads a manifest, proved against the machine of Registry. */
module FunctionService {
  import opened Bytes
  import opened Registry

  // Sorting names, as the manifest is written.

  predicate Less(a: Bytes, b: Bytes) {
    if b == [] then false
    else if a == [] then true
    else a[0] < b[0] || (a[0] == b[0] && Less(a[1..], b[1..]))
  }

  lemma {:induction false} LessTotal(a: Bytes, b: Bytes)
    ensures a == b || Less(a, b) || Less(b, a)
  {
    if a != [] && b != [] && a[0] == b[0] {
      LessTotal(a[1..], b[1..]);
      assert a == [a[0]] + a[1..] && b == [b[0]] + b[1..];
    }
  }

  lemma {:induction false} LessTransitive(a: Bytes, b: Bytes, c: Bytes)
    requires Less(a, b) && Less(b, c)
    ensures Less(a, c)
  {
    if a != [] && a[0] == b[0] == c[0] {
      LessTransitive(a[1..], b[1..], c[1..]);
    }
  }

  ghost predicate Least(m: Bytes, keys: set<Bytes>) {
    m in keys && forall k :: k in keys && k != m ==> Less(m, k)
  }

  lemma {:induction false} LeastExists(keys: set<Bytes>) returns (m: Bytes)
    requires keys != {}
    ensures Least(m, keys)
    decreases |keys|
  {
    hide Less;
    var k :| k in keys;
    if keys - {k} == {} {
      m := k;
      assert forall j :: j in keys && j != k ==> j in keys - {k};
    } else {
      var rest := LeastExists(keys - {k});
      LessTotal(k, rest);
      if Less(k, rest) {
        m := k;
        forall j | j in keys && j != k ensures Less(k, j) {
          if j != rest { LessTransitive(k, rest, j); }
        }
      } else {
        m := rest;
      }
    }
  }

  ghost predicate Sorted(names: seq<Bytes>) {
    forall i, j :: 0 <= i < j < |names| ==> Less(names[i], names[j])
  }

  lemma {:induction false} LessIrreflexive(a: Bytes)
    ensures !Less(a, a)
  {
    if a != [] { LessIrreflexive(a[1..]); }
  }

  /** `sort.Strings` over the keys of the index. */
  method SortedNames(keys: set<Bytes>) returns (names: seq<Bytes>)
    ensures Sorted(names)
    ensures forall n :: n in names <==> n in keys
  {
    hide Less;
    names := [];
    var left := keys;
    while left != {}
      invariant left <= keys && Sorted(names)
      invariant forall n :: n in keys <==> n in names || n in left
      invariant forall i, k :: 0 <= i < |names| && k in left ==> Less(names[i], k)
      decreases left
    {
      ghost var least := LeastExists(left);
      assert exists m :: m in left && forall k :: k in left && k != m ==> Less(m, k) by { assert Least(least, left); }
      var m :| m in left && forall k :: k in left && k != m ==> Less(m, k);
      names := names + [m];
      left := left - {m};
    }
  }

  lemma SortedDiffer(names: seq<Bytes>, i: nat, j: nat)
    requires Sorted(names) && i < j < |names|
    ensures names[i] != names[j]
  {
    LessIrreflexive(names[i]);
  }

  /** What a manifest says, by name. */
  function ItemsMap(items: seq<Stored>): map<Bytes, Stored> {
    if items == [] then map[]
    else ItemsMap(items[..|items| - 1])[items[|items| - 1].name := items[|items| - 1]]
  }

  lemma {:induction false} ItemsMapValues(items: seq<Stored>)
    requires forall i, j :: 0 <= i < j < |items| ==> items[i].name != items[j].name
    ensures forall i :: 0 <= i < |items| ==>
              items[i].name in ItemsMap(items) && ItemsMap(items)[items[i].name] == items[i]
  {
    if items != [] {
      var init := items[..|items| - 1];
      assert forall i :: 0 <= i < |init| ==> init[i] == items[i];
      ItemsMapValues(init);
    }
  }

  lemma {:induction false} ItemsMapKey(items: seq<Stored>, n: Bytes) returns (i: nat)
    requires n in ItemsMap(items)
    ensures i < |items| && items[i].name == n
  {
    var last := |items| - 1;
    if n == items[last].name {
      i := last;
    } else {
      i := ItemsMapKey(items[..last], n);
    }
  }

  lemma ListedIs(items: seq<Stored>, contents: map<Bytes, Stored>)
    requires Lists(items, contents)
    ensures ItemsMap(items) == contents
  {
    hide ItemsMap;
    ItemsMapValues(items);
    forall n ensures n in ItemsMap(items) <==> n in contents {
      if n in contents { var i :| 0 <= i < |items| && items[i].name == n; }
      if n in ItemsMap(items) { var i := ItemsMapKey(items, n); }
    }
    forall n | n in contents ensures ItemsMap(items)[n] == contents[n] {
      var i :| 0 <= i < |items| && items[i].name == n;
    }
  }

  function DiskMap(disk: Disk<seq<Stored>>): Disk<map<Bytes, Stored>> {
    match disk
    case Missing => Missing
    case Manifest(items) => Manifest(ItemsMap(items))
    case Torn => Torn
  }

  class Service {
    var byName: map<Bytes, Fn>
    var byRoute: map<Bytes, Fn>
    var nextId: nat
    var open: set<nat>
    var disk: Disk<seq<Stored>>

    ghost function View(): State
      reads this
    {
      State(Indexes(byName, byRoute), nextId, open, DiskMap(disk))
    }

    constructor ()
      ensures View() == INITIAL
    {
      byName, byRoute, nextId, open, disk := map[], map[], 0, {}, Missing;
    }

    /** `newFunction`, once its worker has started. */
    method Create(item: Stored) returns (fn: Fn)
      modifies this`nextId, this`open
      ensures fn == Fn(old(nextId), item.name, item.route, item.source)
      ensures nextId == old(nextId) + 1 && open == old(open) + {fn.id}
    {
      fn := Fn(nextId, item.name, item.route, item.source);
      nextId, open := nextId + 1, open + {fn.id};
    }

    /** `writeAtomic`: the file is replaced unless a failure is reported early, and is whole exactly when
        the write was; the errors of the write and of the sync are bound to an inner variable and lost. */
    method WriteAtomic(saved: seq<Stored>, f: Faults) returns (ok: bool)
      modifies this`disk
      ensures ok <==> !f.open && !f.close && !f.rename && !f.directory
      ensures disk == if f.open || f.close || f.rename then old(disk) else if f.short then Torn else Manifest(saved)
    {
      if f.open { return false; }
      if f.close { return false; }
      if f.rename { return false; }
      disk := if f.short then Torn else Manifest(saved);
      ok := !f.directory;
    }

    /** `persistLocked`: the sorted manifest of the index, and whether it is reported as stored. */
    method PersistLocked(f: Faults) returns (ok: bool)
      requires forall n :: n in byName ==> byName[n].name == n
      modifies this`disk
      ensures ok <==> !Early(f) && !Late(f)
      ensures Early(f) ==> disk == old(disk)
      ensures !Early(f) && f.short ==> disk == Torn
      ensures !Early(f) && !f.short ==> disk.Manifest? && Lists(disk.contents, Contents(Indexes(byName, byRoute)))
      ensures !Early(f) ==> DiskMap(disk) == Written(f, Indexes(byName, byRoute))
    {
      var names := SortedNames(byName.Keys);
      var saved: seq<Stored> := [];
      for i := 0 to |names|
        invariant |saved| == i
        invariant forall k :: 0 <= k < i ==> saved[k].name == names[k] && saved[k] == StoredOf(byName[names[k]])
      {
        assert names[i] in names;
        saved := saved + [StoredOf(byName[names[i]])];
      }
      ghost var contents := Contents(Indexes(byName, byRoute));
      assert Lists(saved, contents) by { SavedLists(names, saved, contents); }
      ListedIs(saved, contents);
      hide ItemsMap, Lists;
      ok := WriteAtomic(saved, f);
    }

    static lemma SavedLists(names: seq<Bytes>, saved: seq<Stored>, contents: map<Bytes, Stored>)
      requires Sorted(names) && |saved| == |names| && forall n :: n in names <==> n in contents
      requires forall k :: 0 <= k < |names| ==>
                 names[k] in contents && saved[k].name == names[k] && saved[k] == contents[names[k]]
      ensures Lists(saved, contents)
    {
      hide Sorted;
      forall i, j | 0 <= i < j < |saved| ensures saved[i].name != saved[j].name {
        SortedDiffer(names, i, j);
      }
      forall n | n in contents ensures exists i :: 0 <= i < |saved| && saved[i].name == n {
        var i :| 0 <= i < |names| && names[i] == n;
        assert saved[i].name == n;
      }
    }

    /** `deploy`, with its rollback: exactly the machine's step. */
    method Deploy(q: Request) returns (r: Result)
      requires Inv(View())
      modifies this
      ensures Effect(View(), r) == Registry.Deploy(old(View()), q)
      ensures Inv(View())
    {
      hide ValidName, ValidRoute, ValidSource, ItemsMap, AllValid, Inverse, Install, Contents;
      DeployKeeps(View(), q);
      ghost var before := View();
      var name, route := q.item.name, q.item.route;
      if !ValidName(name) { return Refused(BadName); }
      if !ValidRoute(route) { return Refused(BadRoute); }
      if !ValidSource(q.item.source) { return Refused(BadSource); }
      if !q.starts { return Refused(CompileFailed); }
      var fn := Create(q.item);
      if route in byRoute && byRoute[route].name != name {
        open := open - {fn.id};
        assert open == before.open;
        return Refused(RouteTaken);
      }
      r := Swap(q, fn, before);
    }

    /** The part of `deploy` that changes the indexes, and undoes the change if it cannot be persisted. */
    method Swap(q: Request, fn: Fn, ghost before: State) returns (r: Result)
      requires Inv(before) && StoredOf(fn) == q.item && fn.id == before.nextId
      requires View() == before.(nextId := before.nextId + 1, open := before.open + {fn.id})
      requires !Taken(before.x, fn.name, fn.route)
      requires ValidName(fn.name) && ValidRoute(fn.route) && ValidSource(fn.source) && q.starts
      modifies this
      ensures Effect(View(), r) == Registry.Deploy(before, q)
    {
      hide ValidName, ValidRoute, ValidSource, ItemsMap, AllValid, Install, Lists, Contents, Inverse;
      InstallKeepsInverse(before.x, fn);
      var previous := PutIn(fn);
      NamedByKey(Indexes(byName, byRoute));
      var ok := PersistLocked(q.faults);
      if !ok {
        PutBack(fn, previous, before.x);
        open := open - {fn.id};
        assert open == before.open;
        return Refused(PersistFailed);
      }
      if previous.Some? {
        open := open - {previous.value.id};
      }
      r := Deployed;
    }

    static lemma NamedByKey(x: Indexes)
      requires Inverse(x)
      ensures forall n :: n in x.byName ==> x.byName[n].name == n
    {
    }

    method PutIn(fn: Fn) returns (previous: Option<Fn>)
      modifies this`byName, this`byRoute
      ensures Indexes(byName, byRoute) == Install(old(Indexes(byName, byRoute)), fn)
      ensures previous == if fn.name in old(byName) then Some(old(byName)[fn.name]) else None
    {
      previous := if fn.name in byName then Some(byName[fn.name]) else None;
      if previous.Some? {
        byRoute := byRoute - {previous.value.route};
      }
      byName := byName[fn.name := fn];
      byRoute := byRoute[fn.route := fn];
    }

    /** The rollback gives back exactly the indexes from before. */
    method PutBack(fn: Fn, previous: Option<Fn>, ghost x: Indexes)
      requires Inverse(x) && !Taken(x, fn.name, fn.route) && Indexes(byName, byRoute) == Install(x, fn)
      requires previous == if fn.name in x.byName then Some(x.byName[fn.name]) else None
      modifies this`byName, this`byRoute
      ensures Indexes(byName, byRoute) == x
    {
      RolledBack(x, fn);
      hide Inverse, Install, Taken;
      byName := byName - {fn.name};
      byRoute := byRoute - {fn.route};
      if previous.Some? {
        byName := byName[fn.name := previous.value];
        byRoute := byRoute[previous.value.route := previous.value];
      }
    }

    /** Deleting the new function and restoring the previous one gives back both indexes. */
    static lemma RolledBack(x: Indexes, fn: Fn)
      requires Inverse(x) && !Taken(x, fn.name, fn.route)
      ensures var y := Install(x, fn);
              var names, routes := y.byName - {fn.name}, y.byRoute - {fn.route};
              if fn.name in x.byName then
                var p := x.byName[fn.name];
                names[fn.name := p] == x.byName && routes[p.route := p] == x.byRoute
              else names == x.byName && routes == x.byRoute
    {
    }

    /** `Close`: every registered function is closed, both indexes are emptied. */
    method Close()
      modifies this`byName, this`byRoute, this`open
      ensures View() == CloseAll(old(View()))
    {
      var left := byName.Keys;
      ghost var done: set<Bytes> := {};
      while left != {}
        invariant left <= byName.Keys && done == byName.Keys - left
        invariant open == old(open) - set n | n in done :: byName[n].id
        invariant byName == old(byName) && byRoute == old(byRoute)
        decreases left
      {
        var n :| n in left;
        left, done := left - {n}, done + {n};
        open := open - {byName[n].id};
      }
      assert done == byName.Keys;
      byName, byRoute := map[], map[];
    }

    /** The loop of `newService`: all of the manifest, or nothing running. */
    method LoadManifest(items: seq<Stored>, starts: seq<bool>) returns (ok: bool)
      requires |starts| == |items| && View().x == NONE && open == {}
      modifies this`byName, this`byRoute, this`nextId, this`open
      ensures ok <==> Reload(items, starts, NONE, old(nextId)).Some?
      ensures ok ==> Indexes(byName, byRoute) == Reload(items, starts, NONE, old(nextId)).value
      ensures open == Ids(Indexes(byName, byRoute)) && (!ok ==> View().x == NONE)
    {
      hide ValidStored;
      ghost var want := Reload(items, starts, NONE, nextId);
      assert items[0..] == items && starts[0..] == starts;
      for i := 0 to |items|
        invariant Reload(items[i..], starts[i..], Indexes(byName, byRoute), nextId) == want
        invariant open == Ids(Indexes(byName, byRoute))
      {
        var item := items[i];
        assert items[i..][0] == item && starts[i..][0] == starts[i];
        assert items[i..][1..] == items[i + 1..] && starts[i..][1..] == starts[i + 1..];
        if !ValidStored(item) || item.name in byName || item.route in byRoute || !starts[i] {
          Close();
          return false;
        }
        ghost var x := Indexes(byName, byRoute);
        var fn := Create(item);
        byName, byRoute := byName[fn.name := fn], byRoute[fn.route := fn];
        IdsAdded(x, fn, byRoute);
      }
      ok := true;
    }

    static lemma IdsAdded(x: Indexes, fn: Fn, routes: map<Bytes, Fn>)
      requires fn.name !in x.byName
      ensures Ids(Indexes(x.byName[fn.name := fn], routes)) == Ids(x) + {fn.id}
    {
      var y := Indexes(x.byName[fn.name := fn], routes);
      forall id | id in Ids(x) ensures id in Ids(y) {
        var n :| n in x.byName && x.byName[n].id == id;
        assert y.byName[n] == x.byName[n];
      }
      assert y.byName[fn.name] == fn;
    }
  }
}
