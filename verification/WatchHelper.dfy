/** The watcher table in its array, and the notification loop over it. */
module WatchHelpers {
  import opened WatchTable
  import opened Notification

  class WatchHelper {
    const watchers: array<Ptr>

    constructor (slots: nat)
      ensures watchers.Length == slots && fresh(watchers)
      ensures forall i :: 0 <= i < slots ==> watchers[i] == NULL
    {
      watchers := new Ptr[slots];
      new;
      for i := 0 to slots
        invariant forall k :: 0 <= k < i ==> watchers[k] == NULL
      {
        watchers[i] := NULL;
      }
    }

    method FindInArray(w: Ptr) returns (found: bool)
      ensures found <==> w in watchers[..]
    {
      for i := 0 to watchers.Length
        invariant w !in watchers[..i]
      {
        if watchers[i] == w { return true; }
      }
      assert watchers[..] == watchers[..watchers.Length];
      return false;
    }

    /** `ok` is false where the source runs into `assert(false)`. */
    method Watch(w: Ptr) returns (ok: bool)
      modifies watchers
      ensures watchers[..] == Watched(old(watchers[..]), w)
      ensures ok <==> !WatchFails(old(watchers[..]), w)
      ensures ok <==> w in old(watchers[..]) || NULL in old(watchers[..])
      ensures w in old(watchers[..]) || NULL !in old(watchers[..]) ==> watchers[..] == old(watchers[..])
      ensures w !in old(watchers[..]) && NULL in old(watchers[..]) ==>
                exists h :: 0 <= h < watchers.Length && old(watchers[h]) == NULL && NULL !in old(watchers[..h]) &&
                            watchers[..] == old(watchers[..])[h := w]
    {
      var found := FindInArray(w);
      if found { return true; }
      for i := 0 to watchers.Length
        invariant NULL !in watchers[..i]
        invariant watchers[..] == old(watchers[..])
      {
        if watchers[i] == NULL {
          assert IndexOf(old(watchers[..]), NULL) == i;
          watchers[i] := w;
          return true;
        }
      }
      assert watchers[..] == watchers[..watchers.Length];
      return false;
    }

    method Revoke(w: Ptr)
      modifies watchers
      ensures watchers[..] == Revoked(old(watchers[..]), w)
      ensures forall i :: 0 <= i < watchers.Length ==>
                watchers[i] == if old(watchers[i]) == w then NULL else old(watchers[i])
    {
      for i := 0 to watchers.Length
        invariant forall k :: 0 <= k < i ==> watchers[k] == Revoked(old(watchers[..]), w)[k]
        invariant forall k :: i <= k < watchers.Length ==> watchers[k] == old(watchers[k])
      {
        if watchers[i] == w {
          watchers[i] := NULL;
        }
      }
    }

    method ClearWatcher()
      modifies watchers
      ensures watchers[..] == Cleared(old(watchers[..]))
      ensures forall i :: 0 <= i < watchers.Length ==> watchers[i] == NULL
    {
      for i := 0 to watchers.Length
        invariant forall k :: 0 <= k < i ==> watchers[k] == NULL
      {
        watchers[i] := NULL;
      }
    }

    /** A callback at work: its operations, one after the other. */
    method Perform(ops: seq<Op>)
      modifies watchers
      ensures watchers[..] == DoAll(old(watchers[..]), ops)
      decreases |ops|
    {
      if ops == [] { return; }
      match ops[0] {
        case Watch(w) => var _ := Watch(w);
        case Revoke(w) => Revoke(w);
        case Clear => ClearWatcher();
      }
      Perform(ops[1..]);
    }

    /** All the source's `forEachWatcher` loops; they differ only in what they pass to the callback. */
    method ForEachWatcher(react: React) returns (called: seq<Ptr>)
      modifies watchers
      ensures watchers[..] == Pass(old(watchers[..]), 0, [], react).table
      ensures called == Callees(Pass(old(watchers[..]), 0, [], react).log)
      ensures (forall ws, w :: react(ws, w) == []) ==> watchers[..] == old(watchers[..])
    {
      if forall ws, w :: react(ws, w) == [] {
        QuietPass(watchers[..], react);
      }
      called := [];
      ghost var log: seq<Call> := [];
      for i := 0 to watchers.Length
        invariant called == Callees(log)
        invariant Pass(watchers[..], i, log, react) == Pass(old(watchers[..]), 0, [], react)
      {
        if watchers[i] != NULL {
          var ops := react(called, watchers[i]);
          log := log + [Call(i, watchers[i], watchers[..], ops)];
          called := called + [watchers[i]];
          Perform(ops);
        }
      }
    }
  }
}
