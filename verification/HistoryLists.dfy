/** The histories of all client programs, the most recently used one first. */
module HistoryLists {
  import opened CommandHistories

  type NameMatch = (string, string) -> bool

  class Histories {
    var lists: seq<CommandHistory>
    var limit: nat
    var bufferSize: nat

    /** The histories are different objects, and none that is free belongs to a process. */
    ghost predicate Valid()
      reads this, lists
    {
      && Distinct(lists)
      && (forall i :: 0 <= i < |lists| ==> lists[i].Valid())
      && (forall i :: 0 <= i < |lists| && !lists[i].inUse ==> lists[i].process == 0)
    }

    constructor (limit: nat, bufferSize: nat)
      ensures Valid() && lists == [] && this.limit == limit && this.bufferSize == bufferSize
    {
      this.lists, this.limit, this.bufferSize := [], limit, bufferSize;
    }

    /** s_Find: what belongs to a process is never free. */
    method FindOwner(handle: nat) returns (h: CommandHistory?, ghost at: int)
      requires Valid() && handle != 0
      ensures h != null ==> 0 <= at < |lists| && h == lists[at] && Owner(at, handle) && h.inUse
      ensures h == null ==> forall i :: 0 <= i < |lists| ==> lists[i].process != handle
    {
      for i := 0 to |lists|
        invariant forall k :: 0 <= k < i ==> lists[k].process != handle
      {
        if lists[i].process == handle {
          return lists[i], i;
        }
      }
      return null, -1;
    }

    /** s_Free. */
    method Free(handle: nat)
      requires Valid() && handle != 0
      modifies lists
      ensures Valid()
      ensures forall k :: 0 <= k < |lists| ==>
        && lists[k].commands == old(lists[k].commands)
        && if old(Owner(k, handle)) then !lists[k].inUse && lists[k].process == 0
           else lists[k].inUse == old(lists[k].inUse) && lists[k].process == old(lists[k].process)
    {
      var h, k := FindOwner(handle);
      if h != null {
        h.inUse := false;
        h.process := 0;
      }
    }

    /** The first history of a process. */
    ghost predicate Owner(k: nat, handle: nat)
      requires k < |lists|
      reads this, lists
    {
      lists[k].process == handle && forall m :: 0 <= m < k ==> lists[m].process != handle
    }

    /** The first free history of the same program. */
    method FindSameApp(app: string, same: NameMatch) returns (best: int)
      ensures 0 <= best <= |lists|
      ensures best < |lists| ==> Reusable(lists[best], app, same)
      ensures forall k :: 0 <= k < best ==> !Reusable(lists[k], app, same)
    {
      for i := 0 to |lists|
        invariant forall k :: 0 <= k < i ==> !Reusable(lists[k], app, same)
      {
        if !lists[i].inUse {
          if same(lists[i].appName, app) {
            return i;
          }
        }
      }
      return |lists|;
    }

    /** The free history that was not used for longest, among the empty ones if there are any. */
    method FindOldest() returns (best: int)
      ensures 0 <= best <= |lists|
      ensures best == |lists| ==> forall k :: 0 <= k < |lists| ==> lists[k].inUse
      ensures best < |lists| ==> Oldest(best)
    {
      best := |lists|;
      for i := 0 to |lists|
        invariant best < i || best == |lists|
        invariant 0 <= best <= |lists|
        invariant best == |lists| ==> forall k :: 0 <= k < i ==> lists[k].inUse
        invariant best < |lists| ==> !lists[best].inUse
        invariant best < |lists| && lists[best].commands == [] ==>
          forall k :: best < k < i && !lists[k].inUse ==> lists[k].commands != []
        invariant best < |lists| && lists[best].commands != [] ==>
          forall k :: 0 <= k < i && !lists[k].inUse ==> lists[k].commands != [] && k <= best
      {
        if !lists[i].inUse {
          if lists[i].commands == [] || best == |lists| || lists[best].commands != [] {
            best := i;
          }
        }
      }
    }

    ghost predicate Oldest(best: int)
      reads this, lists
    {
      && 0 <= best < |lists| && !lists[best].inUse
      && (lists[best].commands == [] ==> forall k :: best < k < |lists| && !lists[k].inUse ==> lists[k].commands != [])
      && (lists[best].commands != [] ==> forall k :: 0 <= k < |lists| && !lists[k].inUse ==> lists[k].commands != [] && k <= best)
    }

    /** s_Allocate: a history in use is never taken.  A free one of the same program keeps its commands; otherwise
        there is a new one while there may be more, and else the oldest free one is emptied.  The history
        comes to the front, and the others keep their order and their commands. */
    method Allocate(app: string, handle: nat, same: NameMatch) returns (h: CommandHistory?, ghost i: int)
      requires Valid() && handle != 0
      modifies this`lists, lists
      ensures Valid()
      ensures h == null <==> |old(lists)| >= limit && forall k :: 0 <= k < |old(lists)| ==> old(lists[k].inUse)
      ensures h == null ==> lists == old(lists)
      ensures h != null ==> h.inUse && h.process == handle
      ensures h != null && 0 <= i < |old(lists)| ==>
        && h == old(lists)[i] && !old(lists[i].inUse) && lists == [h] + Without(old(lists), i)
      ensures h != null && !(0 <= i < |old(lists)|) ==>
        fresh(h) && lists == [h] + old(lists) && |lists| <= limit && h.maxCommands == bufferSize
      ensures h != null && (exists k :: 0 <= k < |old(lists)| && old(Reusable(lists[k], app, same))) ==>
        && 0 <= i < |old(lists)| && old(Reusable(lists[i], app, same)) && h.commands == old(lists[i].commands)
        && (forall k :: 0 <= k < i ==> !old(Reusable(lists[k], app, same)))
      ensures h != null && !(exists k :: 0 <= k < |old(lists)| && old(Reusable(lists[k], app, same))) ==>
        h.commands == [] && h.lastDisplayed == -1 && h.appName == app && (0 <= i < |old(lists)| ==> old(Oldest(i)))
      ensures h != null && h.commands != [] ==> 0 <= i < |old(lists)| && same(old(lists[i].appName), app)
      ensures forall o :: o in old(lists) && o != h ==> unchanged(o)
    {
      var best := FindSameApp(app, same);
      var sameApp := best < |lists|;
      i := best;
      if !sameApp && |lists| < limit {
        h := new CommandHistory(app, handle, bufferSize);
        lists := [h] + lists;
        return h, -1;
      }
      if best == |lists| {
        best := FindOldest();
        i := best;
      }
      if best == |lists| {
        return null, i;
      }
      h := TakeOver(best, sameApp, app, handle);
    }

    /** Puts a free history to use, and in front. */
    method TakeOver(best: nat, sameApp: bool, app: string, handle: nat) returns (h: CommandHistory)
      requires Valid() && handle != 0 && best < |lists| && !lists[best].inUse
      modifies this`lists, lists
      ensures Valid()
      ensures h == old(lists)[best] && lists == [h] + Without(old(lists), best) && h.inUse && h.process == handle
      ensures h.commands == (if sameApp then old(lists[best].commands) else [])
      ensures if sameApp then h.appName == old(lists[best].appName) && h.lastDisplayed == old(lists[best].lastDisplayed)
              else h.appName == app && h.lastDisplayed == -1
      ensures h.maxCommands == old(lists[best].maxCommands) && h.reset == old(lists[best].reset)
      ensures forall o :: o in old(lists) && o != h ==> unchanged(o)
    {
      h := lists[best];
      if !sameApp {
        h.commands := [];
        h.lastDisplayed := -1;
        h.appName := app;
      }
      h.process := handle;
      h.inUse := true;
      lists := [h] + Without(lists, best);
    }
  }

  predicate Reusable(h: CommandHistory, app: string, same: NameMatch)
    reads h
  {
    !h.inUse && same(h.appName, app)
  }
}
