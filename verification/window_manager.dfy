/** The window registry of `backend-ai-window-manager`: a record of open
    floating windows keyed by name, with `count`, `has`, an idempotent
    `addWindow` and a `removeWindow` that ignores unknown names. Every real
    change dispatches a document event; the dispatched events are kept here as
    an append-only log. */
module WindowManager {
  import opened Js

  /** A floating window, with the fields the registry and the dock read. */
  datatype Window = Window(name: string, title: string, icon: Option<string>, isTop: bool)

  /** The `windows` record as its entries in insertion order, which is the
      order `Object.keys` reports them in. */
  type Registry = seq<Window>

  /** A record holds at most one entry per key. */
  predicate WellFormed(r: Registry) {
    forall i, j :: 0 <= i < j < |r| ==> r[i].name != r[j].name
  }

  /** The key set of the record. */
  function Names(r: Registry): set<string> {
    set w | w in r :: w.name
  }

  /** `Object.keys(windows)`, in insertion order. */
  function Keys(r: Registry): (ks: seq<string>)
    ensures |ks| == |r|
    ensures forall i :: 0 <= i < |r| ==> ks[i] == r[i].name
  {
    if |r| == 0 then [] else [r[0].name] + Keys(r[1..])
  }

  /** The events the manager dispatches on the document. */
  datatype Event = WindowAdded(name: string) | WindowRemoved(name: string)

  /** The manager's state: the registry, and every event dispatched so far. */
  datatype Manager = Manager(windows: Registry, events: seq<Event>)

  /** The manager as constructed: no windows, nothing dispatched. */
  const Initial: Manager := Manager([], [])

  /** `count()`: the number of keys. On a well-formed record this is the size
      of its key set. */
  function Count(r: Registry): (n: nat)
    requires WellFormed(r)
    ensures n == |Names(r)|
  {
    DistinctKeysCount(r);
    |Keys(r)|
  }

  lemma {:induction false} DistinctKeysCount(r: Registry)
    requires WellFormed(r)
    ensures |Names(r)| == |r|
  {
    if |r| > 0 {
      DistinctKeysCount(r[1..]);
      assert Names(r) == {r[0].name} + Names(r[1..]);
      assert r[0].name !in Names(r[1..]) by {
        forall w | w in r[1..] ensures w.name != r[0].name {
          var j :| 0 <= j < |r[1..]| && r[1..][j] == w;
          assert r[j + 1] == w;
        }
      }
    }
  }

  /** `has(name)`: whether `name` is among the keys. */
  function Has(r: Registry, name: string): (b: bool)
    ensures b <==> name in Names(r)
  {
    name in Keys(r)
  }

  /** `windows[name]`: the entry under `name`, or undefined. */
  function Lookup(r: Registry, name: string): (found: Option<Window>)
    ensures found.Some? <==> Has(r, name)
    ensures found.Some? ==> found.value in r && found.value.name == name
  {
    if |r| == 0 then None
    else if r[0].name == name then Some(r[0])
    else Lookup(r[1..], name)
  }

  /** `delete windows[name]`: the record without the entry under `name`. */
  function Delete(r: Registry, name: string): (r': Registry)
    ensures forall w :: w in r' <==> w in r && w.name != name
    ensures |r'| <= |r|
  {
    if |r| == 0 then []
    else if r[0].name == name then Delete(r[1..], name)
    else [r[0]] + Delete(r[1..], name)
  }

  lemma {:induction false} DeletePreservesWellFormed(r: Registry, name: string)
    requires WellFormed(r)
    ensures WellFormed(Delete(r, name))
  {
    if |r| > 0 {
      DeletePreservesWellFormed(r[1..], name);
      var rest := Delete(r[1..], name);
      if r[0].name != name {
        assert forall w :: w in rest ==> w.name != r[0].name by {
          forall w | w in rest ensures w.name != r[0].name {
            var j :| 0 <= j < |r[1..]| && r[1..][j] == w;
            assert r[j + 1] == w;
          }
        }
      }
    }
  }

  lemma {:induction false} DeleteAbsent(r: Registry, name: string)
    requires !Has(r, name)
    ensures Delete(r, name) == r
  {
    if |r| > 0 {
      assert r[0] in r;
      assert !Has(r[1..], name);
      DeleteAbsent(r[1..], name);
    }
  }

  lemma {:induction false} LookupAfterDelete(r: Registry, name: string, other: string)
    requires WellFormed(r)
    requires other != name
    ensures Lookup(Delete(r, name), other) == Lookup(r, other)
  {
    if |r| > 0 {
      LookupAfterDelete(r[1..], name, other);
    }
  }

  lemma {:induction false} LookupAfterAppend(r: Registry, w: Window, other: string)
    requires other != w.name
    ensures Lookup(r + [w], other) == Lookup(r, other)
  {
    if |r| == 0 {
    } else {
      assert (r + [w])[1..] == r[1..] + [w];
      LookupAfterAppend(r[1..], w, other);
    }
  }

  lemma {:induction false} LookupAppended(r: Registry, w: Window)
    requires !Has(r, w.name)
    ensures Lookup(r + [w], w.name) == Some(w)
  {
    if |r| > 0 {
      assert r[0] in r;
      assert !Has(r[1..], w.name);
      assert (r + [w])[1..] == r[1..] + [w];
      LookupAppended(r[1..], w);
    }
  }

  /** `addWindow(win)`: registers `win` under its name and dispatches
      'backend-ai-window-added' with that name, unless the name is already
      registered, in which case nothing happens at all. */
  function AddWindow(m: Manager, win: Window): (m': Manager)
    requires WellFormed(m.windows)
    ensures WellFormed(m'.windows)
    ensures Has(m'.windows, win.name)
    ensures Has(m.windows, win.name) ==> m' == m
    ensures !Has(m.windows, win.name) ==>
              && Count(m'.windows) == Count(m.windows) + 1
              && Lookup(m'.windows, win.name) == Some(win)
              && m'.events == m.events + [WindowAdded(win.name)]
    ensures forall n :: n != win.name ==> Lookup(m'.windows, n) == Lookup(m.windows, n)
  {
    if Has(m.windows, win.name) then m
    else
      var r := m.windows + [win];
      assert Names(r) == Names(m.windows) + {win.name};
      LookupAppended(m.windows, win);
      forall n | n != win.name
        ensures Lookup(r, n) == Lookup(m.windows, n)
      {
        LookupAfterAppend(m.windows, win, n);
      }
      Manager(r, m.events + [WindowAdded(win.name)])
  }

  /** `removeWindow(win)`: deletes the entry under `win.name` and dispatches
      'backend-ai-window-removed' with that name, or does nothing when the name
      is not registered. */
  function RemoveWindow(m: Manager, win: Window): (m': Manager)
    requires WellFormed(m.windows)
    ensures WellFormed(m'.windows)
    ensures !Has(m'.windows, win.name)
    ensures !Has(m.windows, win.name) ==> m' == m
    ensures Has(m.windows, win.name) ==>
              && Count(m'.windows) == Count(m.windows) - 1
              && m'.events == m.events + [WindowRemoved(win.name)]
    ensures forall n :: n != win.name ==> Lookup(m'.windows, n) == Lookup(m.windows, n)
  {
    if !Has(m.windows, win.name) then
      DeleteAbsent(m.windows, win.name);
      m
    else
      var r := Delete(m.windows, win.name);
      DeletePreservesWellFormed(m.windows, win.name);
      assert Names(r) == Names(m.windows) - {win.name};
      forall n | n != win.name
        ensures Lookup(r, n) == Lookup(m.windows, n)
      {
        LookupAfterDelete(m.windows, win.name, n);
      }
      Manager(r, m.events + [WindowRemoved(win.name)])
  }

  /** Adding a window twice is adding it once. */
  lemma AddWindowIdempotent(m: Manager, win: Window)
    requires WellFormed(m.windows)
    ensures AddWindow(AddWindow(m, win), win) == AddWindow(m, win)
  {
  }

  /** Registering a new window and then removing it restores the registry
      exactly, leaving the two events in the log. */
  lemma AddThenRemoveRestores(m: Manager, win: Window)
    requires WellFormed(m.windows)
    requires !Has(m.windows, win.name)
    ensures RemoveWindow(AddWindow(m, win), win).windows == m.windows
    ensures RemoveWindow(AddWindow(m, win), win).events
              == m.events + [WindowAdded(win.name), WindowRemoved(win.name)]
  {
    DeleteAppended(m.windows, win);
  }

  lemma {:induction false} DeleteAppended(r: Registry, w: Window)
    requires !Has(r, w.name)
    ensures Delete(r + [w], w.name) == r
  {
    if |r| > 0 {
      assert r[0] in r;
      assert !Has(r[1..], w.name);
      assert (r + [w])[1..] == r[1..] + [w];
      DeleteAppended(r[1..], w);
    }
  }

  /* ---------------------------------------------------------------------- */
  /* runs of requests                                                        */
  /* ---------------------------------------------------------------------- */

  /** A call made on the manager. */
  datatype Request = Add(win: Window) | Remove(win: Window)

  function Apply(m: Manager, q: Request): (m': Manager)
    requires WellFormed(m.windows)
    ensures WellFormed(m'.windows)
  {
    match q
    case Add(w) => AddWindow(m, w)
    case Remove(w) => RemoveWindow(m, w)
  }

  function Run(m: Manager, qs: seq<Request>): (m': Manager)
    requires WellFormed(m.windows)
    ensures WellFormed(m'.windows)
    decreases |qs|
  {
    if |qs| == 0 then m else Run(Apply(m, qs[0]), qs[1..])
  }

  function AddedCount(es: seq<Event>): nat {
    if |es| == 0 then 0 else AddedCount(es[..|es| - 1]) + (if es[|es| - 1].WindowAdded? then 1 else 0)
  }

  function RemovedCount(es: seq<Event>): nat {
    if |es| == 0 then 0 else RemovedCount(es[..|es| - 1]) + (if es[|es| - 1].WindowRemoved? then 1 else 0)
  }

  /** The log accounts for the registry: starting from the constructed manager,
      after any run of requests the number of registered windows is the number
      of 'added' events minus the number of 'removed' events. */
  lemma {:induction false} EventsAccountForCount(qs: seq<Request>)
    ensures var m := Run(Initial, qs);
            Count(m.windows) == AddedCount(m.events) - RemovedCount(m.events)
  {
    RunPreservesBalance(Initial, qs);
  }

  lemma {:induction false} RunPreservesBalance(m: Manager, qs: seq<Request>)
    requires WellFormed(m.windows)
    requires Count(m.windows) + RemovedCount(m.events) == AddedCount(m.events)
    ensures var m' := Run(m, qs);
            Count(m'.windows) + RemovedCount(m'.events) == AddedCount(m'.events)
    decreases |qs|
  {
    if |qs| > 0 {
      var m1 := Apply(m, qs[0]);
      if m1 != m {
        var es := m1.events;
        assert es[..|es| - 1] == m.events;
      }
      RunPreservesBalance(m1, qs[1..]);
    }
  }
}
