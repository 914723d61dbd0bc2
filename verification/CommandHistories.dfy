/** The commands that were entered, as the arrow and function keys bring them back. */
module CommandHistories {

  predicate Distinct<T(==)>(s: seq<T>) {
    forall i, j :: 0 <= i < j < |s| ==> s[i] != s[j]
  }

  function Without<T>(s: seq<T>, i: nat): seq<T>
    requires i < |s|
  {
    s[..i] + s[i + 1..]
  }

  // ----- the search

  function Prev(i: int, n: nat): int {
    (if i <= 0 then n else i) - 1
  }

  /** The index after d steps back from a start. */
  function Back(start: int, d: nat, n: nat): int {
    if d == 0 then start else Prev(Back(start, d - 1, n), n)
  }

  predicate Matches(stored: string, given: string, exact: bool) {
    given <= stored && (exact ==> |given| == |stored|)
  }

  /** Walking back from an index, one passes it and all below it, and then comes from the top. */
  lemma {:induction false} BackIs(start: int, d: nat, n: nat)
    requires 0 <= start < n && d <= n
    ensures Back(start, d, n) == if d <= start then start - d else start + n - d
  {
    if d > 0 {
      BackIs(start, d - 1, n);
    }
  }

  datatype Direction = Previous | Next

  // ----- what adding a command makes of the commands

  /** The command that is found is taken out; otherwise the oldest one goes if there is no room. */
  function Added(commands: seq<string>, max: nat, text: string, found: int): seq<string> {
    if 0 <= found < |commands| then Without(commands, found) + [text]
    else if |commands| == max && max > 0 then commands[1..] + [text]
    else commands + [text]
  }

  class CommandHistory {
    var commands: seq<string>
    var maxCommands: int
    var lastDisplayed: int
    var reset: bool
    var inUse: bool
    var appName: string
    var process: nat

    /** There are never too many commands; the one displayed last is one of them, or none, or the first of an
        empty list; and if it is none although there are commands, there is room for another one. */
    ghost predicate Valid()
      reads this
    {
      && |commands| <= maxCommands
      && -1 <= lastDisplayed
      && (lastDisplayed < |commands| || (lastDisplayed == 0 && commands == []))
      && (lastDisplayed == -1 && commands != [] ==> |commands| < maxCommands)
      && forall i :: 0 <= i < |commands| ==> commands[i] != ""
    }

    constructor (app: string, handle: nat, max: nat)
      ensures Valid() && commands == [] && lastDisplayed == -1 && !reset && inUse
      ensures appName == app && process == handle && maxCommands == max
    {
      commands, maxCommands, lastDisplayed, reset, inUse, appName, process := [], max, -1, false, true, app, handle;
    }

    /** Where a search from an index begins. */
    function SearchStart(start: int, justLooking: bool): int
      reads this
    {
      if !justLooking && reset then start else Prev(start, |commands|)
    }

    /** FindMatchingCommand: the first match on the way back from the start, all the way round.  A start outside
        the list finds nothing. */
    method FindMatchingCommand(given: string, start: int, justLooking: bool, exact: bool) returns (found: bool, index: int)
      modifies this`reset
      ensures reset == (old(reset) && (commands == [] || justLooking))
      ensures commands == [] ==> !found
      ensures commands != [] && given == "" ==> found && index == old(SearchStart(start, justLooking))
      ensures commands != [] && given != "" && !(0 <= old(SearchStart(start, justLooking)) < |commands|) ==> !found
      ensures commands != [] && given != "" && 0 <= old(SearchStart(start, justLooking)) < |commands| ==>
        && (found <==> exists i :: 0 <= i < |commands| && Matches(commands[i], given, exact))
        && (found ==> FirstMatch(commands, given, exact, old(SearchStart(start, justLooking)), index))
    {
      index := start;
      if |commands| == 0 {
        return false, index;
      }
      if !justLooking && reset {
        reset := false;
      } else {
        index := Prev(index, |commands|);
      }
      if |given| == 0 {
        return true, index;
      }
      if index < 0 || index >= |commands| {
        return false, index;
      }
      found, index := SearchBack(commands, given, exact, index);
    }

    /** The loop: every command is looked at once. */
    static method SearchBack(commands: seq<string>, given: string, exact: bool, first: int) returns (found: bool, index: int)
      requires 0 <= first < |commands|
      ensures found <==> exists i :: 0 <= i < |commands| && Matches(commands[i], given, exact)
      ensures found ==> FirstMatch(commands, given, exact, first, index)
    {
      index := first;
      var n := |commands|;
      for d := 0 to n
        invariant index == Back(first, d, n)
        invariant 0 <= index < n
        invariant NoMatch(commands, given, exact, first, d)
      {
        BackIs(first, d, n);
        BackIs(first, d + 1, n);
        if (!exact && |given| <= |commands[index]|) || |given| == |commands[index]| {
          if given <= commands[index] {
            return true, index;
          }
        }
        index := Prev(index, n);
      }
      AllPassed(commands, given, exact, first);
      return false, index;
    }

    /** Remove: the command displayed last stays the same one, unless it is removed. */
    method Remove(i: int) returns (str: string)
      requires Valid()
      modifies this`commands, this`lastDisplayed
      ensures Valid()
      ensures !(0 <= i < |old(commands)|) ==> str == "" && commands == old(commands) && lastDisplayed == old(lastDisplayed)
      ensures 0 <= i < |old(commands)| ==>
        && str == old(commands)[i] && commands == Without(old(commands), i)
        && lastDisplayed == (if old(lastDisplayed) == i then -1 else if old(lastDisplayed) > i then old(lastDisplayed) - 1
                             else old(lastDisplayed))
        && (lastDisplayed >= 0 ==> commands[lastDisplayed] == old(commands)[old(lastDisplayed)])
      ensures Distinct(old(commands)) ==> Distinct(commands)
    {
      if i < 0 || i >= |commands| {
        return "";
      }
      str := commands[i];
      commands := commands[..i] + commands[i + 1..];
      if lastDisplayed == i {
        lastDisplayed := -1;
      } else if lastDisplayed > i {
        lastDisplayed := (if lastDisplayed <= 0 then maxCommands else lastDisplayed) - 1;
      }
    }

    method Reset()
      modifies this`lastDisplayed, this`reset
      ensures lastDisplayed == |commands| - 1 && reset
    {
      lastDisplayed := |commands| - 1;
      reset := true;
    }

    /** The search of Add does not look at the commands at all. */
    predicate Blind()
      reads this
    {
      lastDisplayed == -1 && reset
    }

    /** Add: the new command comes to the end, and is the one displayed last. */
    method Add(text: string, suppressDuplicates: bool) returns (ok: bool, ghost found: int)
      requires Valid() && inUse
      modifies this`commands, this`lastDisplayed, this`reset
      ensures Valid()
      ensures ok <==> maxCommands != 0
      ensures !ok || text == "" ==> commands == old(commands) && lastDisplayed == old(lastDisplayed) && reset == old(reset)
      ensures ok && text != "" ==> reset && commands != [] && commands[|commands| - 1] == text
      ensures ok && text != "" && Ends(old(commands), text) ==> commands == old(commands) && lastDisplayed == old(lastDisplayed)
      ensures ok && text != "" && !Ends(old(commands), text) ==>
        && 0 <= lastDisplayed && commands[lastDisplayed] == text
        && commands == Added(old(commands), maxCommands, text, found)
        && (0 <= found < |old(commands)| <==> suppressDuplicates && !old(Blind()) && text in old(commands))
        && (0 <= found < |old(commands)| ==> old(commands)[found] == text)
      ensures ok && text != "" && suppressDuplicates && Distinct(old(commands)) ==>
        (Distinct(commands) <==> !old(Blind()) || text !in old(commands) || Ends(old(commands), text))
    {
      found := -1;
      if maxCommands == 0 {
        return false, found;
      }
      ok := true;
      if |text| == 0 {
        return;
      }
      if |commands| == 0 || commands[|commands| - 1] != text {
        found := TakeOut(text, suppressDuplicates);
        Append(text);
        assert commands == Added(old(commands), maxCommands, text, found);
        if Distinct(old(commands)) {
          AddedKeepsDistinctIff(old(commands), maxCommands, text, found);
        }
      }
      reset := true;
    }

    /** The new command at the end; the oldest one goes if there is no room.  The index that is looked at is
        never outside the list. */
    method Append(text: string)
      requires Valid() && maxCommands > 0 && text != ""
      modifies this`commands, this`lastDisplayed, this`reset
      ensures Valid() && 0 <= lastDisplayed < |commands| && commands[lastDisplayed] == text
      ensures commands == (if |old(commands)| == maxCommands then old(commands)[1..] else old(commands)) + [text]
    {
      if |commands| == maxCommands {
        commands := commands[1..];
        lastDisplayed := lastDisplayed - 1;
      }
      commands := commands + [text];
      if lastDisplayed == -1 || commands[lastDisplayed] != text {
        Reset();
      }
    }

    /** The duplicate of a new command, if there is to be none, is removed. */
    method TakeOut(text: string, suppressDuplicates: bool) returns (found: int)
      requires Valid() && text != "" && !Ends(commands, text)
      modifies this`commands, this`lastDisplayed, this`reset
      ensures Valid()
      ensures 0 <= found < |old(commands)| <==> suppressDuplicates && !old(Blind()) && text in old(commands)
      ensures 0 <= found < |old(commands)| ==> old(commands)[found] == text && commands == Without(old(commands), found)
      ensures !(0 <= found < |old(commands)|) ==> commands == old(commands) && lastDisplayed == old(lastDisplayed)
    {
      found := -1;
      if suppressDuplicates {
        ExactMatches(commands, text);
        var yes, index := FindMatchingCommand(text, lastDisplayed, false, true);
        if yes {
          var _ := Remove(index);
          found := index;
        }
      }
    }

    method Retrieve(d: Direction) returns (cmd: string)
      requires Valid()
      modifies this`lastDisplayed, this`reset
      ensures Valid()
      ensures commands == [] ==> cmd == "" && lastDisplayed == 0
      ensures commands != [] ==> 0 <= lastDisplayed && cmd == commands[lastDisplayed]
      ensures commands != [] && d.Previous? && old(reset) ==> lastDisplayed == if old(lastDisplayed) < 0 then 0 else old(lastDisplayed)
      ensures commands != [] && d.Previous? && !old(reset) ==>
        lastDisplayed == if old(lastDisplayed) <= 0 then 0 else old(lastDisplayed) - 1
      ensures commands != [] && d.Next? ==>
        lastDisplayed == if old(lastDisplayed) + 1 >= |commands| then |commands| - 1 else old(lastDisplayed) + 1
      ensures reset == (old(reset) && d.Next?)
    {
      if d.Previous? {
        if reset {
          reset := false;
        } else {
          lastDisplayed := lastDisplayed - 1;
        }
      } else {
        lastDisplayed := lastDisplayed + 1;
      }
      cmd := RetrieveNth(lastDisplayed);
    }

    method RetrieveNth(index: int) returns (cmd: string)
      requires |commands| <= maxCommands && forall i :: 0 <= i < |commands| ==> commands[i] != ""
      modifies this`lastDisplayed
      ensures Valid()
      ensures commands == [] ==> cmd == "" && lastDisplayed == 0
      ensures commands != [] ==>
        && lastDisplayed == (if index < 0 then 0 else if index >= |commands| then |commands| - 1 else index)
        && cmd == commands[lastDisplayed]
    {
      if commands == [] {
        lastDisplayed := 0;
        return "";
      }
      lastDisplayed := if index < 0 then 0 else if index > |commands| - 1 then |commands| - 1 else index;
      return commands[lastDisplayed];
    }

    method Empty()
      requires Valid()
      modifies this`commands, this`lastDisplayed, this`reset
      ensures Valid() && commands == [] && lastDisplayed == -1 && reset
    {
      commands, lastDisplayed, reset := [], -1, true;
    }

    method Realloc(max: nat)
      requires Valid()
      modifies this`commands, this`lastDisplayed, this`reset, this`maxCommands
      ensures Valid() && maxCommands == max
      ensures max == old(maxCommands) ==> commands == old(commands) && lastDisplayed == old(lastDisplayed) && reset == old(reset)
      ensures max != old(maxCommands) ==>
        && commands == (if |old(commands)| <= max then old(commands) else old(commands)[..max])
        && lastDisplayed == |commands| - 1 && reset
      ensures Distinct(old(commands)) ==> Distinct(commands)
    {
      if maxCommands == max {
        return;
      }
      commands := if |commands| <= max then commands else commands[..max];
      reset := true;
      lastDisplayed := |commands| - 1;
      maxCommands := max;
    }

    method Swap(a: int, b: int)
      requires Valid()
      modifies this`commands
      ensures Valid() && multiset(commands) == multiset(old(commands)) && |commands| == |old(commands)|
      ensures forall i :: 0 <= i < |commands| ==> commands[i] == old(commands)[
        if 0 <= a < |commands| && 0 <= b < |commands| && i == a then b
        else if 0 <= a < |commands| && 0 <= b < |commands| && i == b then a else i]
      ensures Distinct(old(commands)) ==> Distinct(commands)
    {
      if a != b && 0 <= a < |commands| && 0 <= b < |commands| {
        commands := commands[a := commands[b]][b := commands[a]];
      }
    }
  }

  ghost predicate NoMatch(commands: seq<string>, given: string, exact: bool, first: int, d: nat) {
    forall k {:trigger Back(first, k, |commands|)} :: 0 <= k < d ==>
      var i := Back(first, k, |commands|); 0 <= i < |commands| ==> !Matches(commands[i], given, exact)
  }

  /** The index is the first match on the way back. */
  ghost predicate FirstMatch(commands: seq<string>, given: string, exact: bool, first: int, index: int) {
    && 0 <= index < |commands| && Matches(commands[index], given, exact)
    && exists d: nat {:trigger NoMatch(commands, given, exact, first, d)} ::
         d < |commands| && index == Back(first, d, |commands|) && NoMatch(commands, given, exact, first, d)
  }

  lemma {:induction false} AllPassed(commands: seq<string>, given: string, exact: bool, first: int)
    requires 0 <= first < |commands| && NoMatch(commands, given, exact, first, |commands|)
    ensures forall i :: 0 <= i < |commands| ==> !Matches(commands[i], given, exact)
  {
    var n := |commands|;
    forall i | 0 <= i < n ensures !Matches(commands[i], given, exact) {
      var d := if i <= first then first - i else first + n - i;
      BackIs(first, d, n);
    }
  }

  predicate Ends(commands: seq<string>, text: string) {
    commands != [] && commands[|commands| - 1] == text
  }

  lemma {:induction false} ExactMatches(commands: seq<string>, text: string)
    ensures (exists i :: 0 <= i < |commands| && Matches(commands[i], text, true)) <==> text in commands
    ensures forall i :: 0 <= i < |commands| && Matches(commands[i], text, true) ==> commands[i] == text
  {
    forall i | 0 <= i < |commands| ensures Matches(commands[i], text, true) <==> commands[i] == text {
    }
    if text in commands {
      var i :| 0 <= i < |commands| && commands[i] == text;
      assert Matches(commands[i], text, true);
    }
  }

  /** The commands stay pairwise distinct exactly if the new one was found or was not there. */
  lemma {:induction false} AddedKeepsDistinctIff(commands: seq<string>, max: nat, text: string, found: int)
    requires Distinct(commands) && !Ends(commands, text) && |commands| <= max
    requires 0 <= found < |commands| ==> commands[found] == text
    ensures Distinct(Added(commands, max, text, found)) <==>
      0 <= found < |commands| || text !in (if |commands| == max && max > 0 then commands[1..] else commands)
  {
    if 0 <= found < |commands| {
      WithoutDistinct(commands, found);
      PushDistinctIff(Without(commands, found), text);
    } else if |commands| == max && max > 0 {
      PushDistinctIff(commands[1..], text);
    } else {
      PushDistinctIff(commands, text);
    }
  }

  lemma {:induction false} PushDistinctIff<T>(s: seq<T>, x: T)
    requires Distinct(s)
    ensures Distinct(s + [x]) <==> x !in s
  {
    if x in s {
      var i :| 0 <= i < |s| && s[i] == x;
      assert (s + [x])[i] == (s + [x])[|s|];
    } else {
      forall i, j | 0 <= i < j < |s + [x]| ensures (s + [x])[i] != (s + [x])[j] {
      }
    }
  }

  lemma {:induction false} WithoutDistinct<T>(s: seq<T>, i: nat)
    requires i < |s| && Distinct(s)
    ensures Distinct(Without(s, i)) && s[i] !in Without(s, i)
  {
    var r := Without(s, i);
    assert forall k :: 0 <= k < |r| ==> r[k] == s[if k < i then k else k + 1];
  }

  /** A duplicate comes in if the command displayed last was removed and nothing was displayed since. */
  method DuplicateExample() returns (h: CommandHistory)
    ensures h.commands == ["a", "b", "a"]
  {
    h := ThreeCommands();
    var _ := h.Remove(2);
    assert h.commands == ["a", "b"] && h.Blind();
    var _, _ := h.Add("a", true);
  }

  method ThreeCommands() returns (h: CommandHistory)
    ensures fresh(h) && h.Valid() && h.inUse && h.reset && h.maxCommands == 10
    ensures h.commands == ["a", "b", "c"] && h.lastDisplayed == 2
  {
    h := new CommandHistory("app", 1, 10);
    AddNew(h, "a");
    AddNew(h, "b");
    AddNew(h, "c");
  }

  /** A command that is not there yet comes to the end. */
  method AddNew(h: CommandHistory, text: string)
    requires h.Valid() && h.inUse && |h.commands| < h.maxCommands && text != "" && text !in h.commands
    modifies h`commands, h`lastDisplayed, h`reset
    ensures h.Valid() && h.reset && h.commands == old(h.commands) + [text] && h.lastDisplayed == |old(h.commands)|
  {
    assert !Ends(h.commands, text);
    var _, _ := h.Add(text, true);
    assert forall i :: 0 <= i < |old(h.commands)| ==> h.commands[i] == old(h.commands)[i] != text;
  }
}
