/**
 * The per-device command scheduler (`tce_command_scheduler`,
 * `pocl_tce_submit`, `pocl_tce_flush`, `pocl_tce_join`,
 * `pocl_tce_notify`), run sequentially: the queue lock only guards the list
 * surgery, and execution is taken not to touch the lists. A command is
 * named by its node identity, a `nat`.
 */
module Scheduler {

  /** Event status codes of the OpenCL 1.2 specification (`cl.h`); a
      negative status is an error. */
  const ClComplete: int := 0
  const ClRunning: int := 1
  const ClSubmitted: int := 2
  const ClQueued: int := 3
  /** The status an event gets when it fails. */
  const ClFailed: int := -1

  datatype CommandKind = NDRangeKernel | OtherCommand

  /** What the drain does to a command: compile its kernel, execute it. */
  datatype Action = Compile(node: nat) | Exec(node: nat)

  /** The actions of draining `ids` in order: an NDRange command is
      compiled right before it is executed; any other is only executed. */
  function DrainLog(ids: seq<nat>, kinds: map<nat, CommandKind>): seq<Action>
    requires forall x :: x in ids ==> x in kinds
    decreases |ids|
  {
    if ids == [] then [] else Steps(ids[0], kinds) + DrainLog(ids[1..], kinds)
  }

  function Steps(x: nat, kinds: map<nat, CommandKind>): seq<Action>
    requires x in kinds
  {
    if kinds[x] == NDRangeKernel then [Compile(x), Exec(x)] else [Exec(x)]
  }

  /** The drain takes one or two actions per command, and acts on no
      command outside the list. */
  lemma {:induction false} DrainLogShape(ids: seq<nat>, kinds: map<nat, CommandKind>)
    requires forall x :: x in ids ==> x in kinds
    ensures |ids| <= |DrainLog(ids, kinds)| <= 2 * |ids|
    ensures forall a :: a in DrainLog(ids, kinds) ==> a.node in ids
    decreases |ids|
  {
    if ids != [] {
      DrainLogShape(ids[1..], kinds);
      forall a | a in DrainLog(ids, kinds) ensures a.node in ids {
        if a !in Steps(ids[0], kinds) {
          assert a in DrainLog(ids[1..], kinds);
          assert a.node in ids[1..];
        }
      }
    }
  }

  /** Draining one list and then another logs the two drains in turn. */
  lemma {:induction false} DrainLogAppend(a: seq<nat>, b: seq<nat>, kinds: map<nat, CommandKind>)
    requires forall y :: y in a + b ==> y in kinds
    ensures DrainLog(a + b, kinds) == DrainLog(a, kinds) + DrainLog(b, kinds)
    decreases |a|
  {
    if a == [] {
      assert a + b == b;
    } else {
      assert (a + b)[1..] == a[1..] + b;
      DrainLogAppend(a[1..], b, kinds);
    }
  }

  /** The commands a log executes, in order. */
  function Executed(log: seq<Action>): seq<nat>
    decreases |log|
  {
    if log == [] then []
    else (if log[0].Exec? then [log[0].node] else []) + Executed(log[1..])
  }

  lemma {:induction false} ExecutedAppend(a: seq<Action>, b: seq<Action>)
    ensures Executed(a + b) == Executed(a) + Executed(b)
    decreases |a|
  {
    if a == [] {
      assert a + b == b;
    } else {
      assert (a + b)[0] == a[0];
      assert (a + b)[1..] == a[1..] + b;
      ExecutedAppend(a[1..], b);
    }
  }

  /** The drain executes exactly the drained commands, in their order. */
  lemma {:induction false} DrainExecutes(ids: seq<nat>, kinds: map<nat, CommandKind>)
    requires forall x :: x in ids ==> x in kinds
    ensures Executed(DrainLog(ids, kinds)) == ids
    decreases |ids|
  {
    if ids != [] {
      var x := ids[0];
      DrainExecutes(ids[1..], kinds);
      ExecutedAppend(Steps(x, kinds), DrainLog(ids[1..], kinds));
      assert Executed([Exec(x)]) == [x] by {
        assert [Exec(x)][1..] == [];
      }
      if kinds[x] == NDRangeKernel {
        assert [Compile(x), Exec(x)][1..] == [Exec(x)];
      }
      assert ids == [x] + ids[1..];
    }
  }

  /** The drain compiles a command exactly when it drains it and it is an
      NDRange kernel launch. */
  lemma {:induction false} DrainCompiles(ids: seq<nat>, kinds: map<nat, CommandKind>, x: nat)
    requires forall y :: y in ids ==> y in kinds
    ensures Compile(x) in DrainLog(ids, kinds) <==> x in ids && kinds[x] == NDRangeKernel
    decreases |ids|
  {
    if ids != [] {
      DrainCompiles(ids[1..], kinds, x);
      assert ids == [ids[0]] + ids[1..];
    }
  }

  /** In a drain, every compile is immediately followed by the execution of
      the same command, and every NDRange execution is immediately preceded
      by its compile. */
  lemma {:induction false} CompileThenExec(ids: seq<nat>, kinds: map<nat, CommandKind>, i: nat)
    requires forall y :: y in ids ==> y in kinds
    requires i < |DrainLog(ids, kinds)|
    ensures var l := DrainLog(ids, kinds);
      && (l[i].Compile? ==> i + 1 < |l| && l[i + 1] == Exec(l[i].node))
      && (l[i].Exec? && l[i].node in kinds && kinds[l[i].node] == NDRangeKernel ==> 0 < i && l[i - 1] == Compile(l[i].node))
    decreases |ids|
  {
    var st := Steps(ids[0], kinds);
    var rest := DrainLog(ids[1..], kinds);
    assert DrainLog(ids, kinds) == st + rest;
    if i >= |st| {
      var j := i - |st|;
      CompileThenExec(ids[1..], kinds, j);
    }
  }

  predicate NoDups(s: seq<nat>)
  {
    forall i, j :: 0 <= i < j < |s| ==> s[i] != s[j]
  }

  /** `CDL_DELETE`: the list without `x`, the others in their order. */
  function Remove(s: seq<nat>, x: nat): (r: seq<nat>)
    ensures forall y :: y in r <==> y in s && y != x
    ensures NoDups(s) ==> NoDups(r)
    ensures NoDups(s) && x in s ==> |r| == |s| - 1
    ensures x !in s ==> r == s
    decreases |s|
  {
    if s == [] then []
    else if s[0] == x then Remove(s[1..], x)
    else
      NoDupsCons(s[0], Remove(s[1..], x));
      NoDupsCons(s[0], s[1..]);
      assert s == [s[0]] + s[1..];
      [s[0]] + Remove(s[1..], x)
  }

  lemma NoDupsCons(x: nat, s: seq<nat>)
    ensures NoDups([x] + s) <==> x !in s && NoDups(s)
  {
    if x !in s && NoDups(s) {
      forall i, j | 0 <= i < j < |[x] + s| ensures ([x] + s)[i] != ([x] + s)[j] {
        if i > 0 {
          assert ([x] + s)[i] == s[i - 1];
        }
        assert ([x] + s)[j] == s[j - 1];
      }
    }
    if NoDups([x] + s) {
      forall i, j | 0 <= i < j < |s| ensures s[i] != s[j] {
        assert s[i] == ([x] + s)[i + 1] && s[j] == ([x] + s)[j + 1];
      }
      forall k | 0 <= k < |s| ensures s[k] != x {
        assert ([x] + s)[k + 1] == s[k] && ([x] + s)[0] == x;
      }
    }
  }

  lemma NoDupsTail(s: seq<nat>)
    requires NoDups(s) && s != []
    ensures NoDups(s[1..]) && s[0] !in s[1..]
  {
  }

  class CommandScheduler {
    /** Commands whose dependencies are met, in execution order. */
    var readyList: seq<nat>
    /** Commands waiting on their dependencies. */
    var commandList: seq<nat>
    /** The status of each command's event. */
    var status: map<nat, int>
    /** The `ready` flag of each node: set once it has been submitted. */
    var submitted: set<nat>
    var kinds: map<nat, CommandKind>
    /** The compilations and executions the drain performed, oldest first. */
    var log: seq<Action>

    /** The list invariant: each list holds submitted commands once, no
        command is in both, the ready ones are SUBMITTED, and a submitted
        command still QUEUED waits in `commandList`. */
    ghost predicate Valid()
      reads this
    {
      && submitted <= status.Keys && submitted <= kinds.Keys
      && NoDups(readyList) && NoDups(commandList)
      && (forall x :: x in readyList ==> x !in commandList)
      && (forall x :: x in readyList ==> x in submitted && status[x] == ClSubmitted)
      && (forall x :: x in commandList ==> x in submitted)
      && (forall x :: x in submitted && status[x] == ClQueued ==> x in commandList)
    }

    constructor ()
      ensures Valid()
      ensures readyList == [] && commandList == [] && status == map[] && submitted == {} && kinds == map[] && log == []
    {
      readyList, commandList := [], [];
      status, submitted, kinds := map[], {}, map[];
      log := [];
    }

    /** `tce_command_scheduler`: take commands off the head of the ready
        list until it is empty, compiling each NDRange launch before
        executing it. */
    method Drain()
      requires Valid()
      modifies this`readyList, this`log
      ensures Valid() && readyList == []
      ensures log == old(log) + DrainLog(old(readyList), kinds)
    {
      while readyList != []
        invariant Valid()
        invariant log + DrainLog(readyList, kinds) == old(log) + DrainLog(old(readyList), kinds)
        decreases |readyList|
      {
        var node := readyList[0];
        assert status[node] == ClSubmitted;
        NoDupsTail(readyList);
        readyList := readyList[1..];
        if kinds[node] == NDRangeKernel {
          log := log + [Compile(node)];
        }
        log := log + [Exec(node)];
      }
    }

    /** `pocl_tce_submit`: set the node's `ready` flag, push it, then drain.
        The push (`pocl_command_push`) is given whether the command's
        dependencies are met: a ready command is marked SUBMITTED and
        appended to the ready list, any other is appended to the command
        list and stays QUEUED. */
    method Submit(x: nat, kind: CommandKind, depsMet: bool)
      requires Valid() && x !in submitted
      modifies this
      ensures Valid() && readyList == []
      ensures submitted == old(submitted) + {x} && kinds == old(kinds)[x := kind]
      ensures depsMet ==>
        && status == old(status)[x := ClSubmitted] && commandList == old(commandList)
        && log == old(log) + DrainLog(old(readyList) + [x], kinds)
      ensures !depsMet ==>
        && status == old(status)[x := ClQueued] && commandList == old(commandList) + [x]
        && log == old(log) + DrainLog(old(readyList), kinds)
    {
      submitted := submitted + {x};
      kinds := kinds[x := kind];
      if depsMet {
        status := status[x := ClSubmitted];
        readyList := readyList + [x];
      } else {
        status := status[x := ClQueued];
        commandList := commandList + [x];
      }
      Drain();
    }

    /** `pocl_tce_flush`: drain. */
    method Flush()
      requires Valid()
      modifies this`readyList, this`log
      ensures Valid() && readyList == []
      ensures log == old(log) + DrainLog(old(readyList), kinds)
    {
      Drain();
    }

    /** `pocl_tce_join`: drain; waiting for completion is left to the
        event machinery. */
    method Join()
      requires Valid()
      modifies this`readyList, this`log
      ensures Valid() && readyList == []
      ensures log == old(log) + DrainLog(old(readyList), kinds)
    {
      Drain();
    }

    /** `pocl_tce_notify`: a finished dependency of `x` reports
        `finishedStatus`; `depsMet` is whether all of `x`'s dependencies
        are now met. A failed dependency fails `x`; a submitted command
        whose dependencies are met and that is still QUEUED is marked
        SUBMITTED, moved to the front of the ready list, and drained;
        anything else changes nothing. */
    method Notify(x: nat, finishedStatus: int, depsMet: bool)
      requires Valid() && x in status
      requires finishedStatus < ClComplete ==> x !in readyList
      modifies this`status, this`commandList, this`readyList, this`log
      ensures Valid()
      ensures finishedStatus < ClComplete ==>
        && status == old(status)[x := ClFailed]
        && readyList == old(readyList) && commandList == old(commandList) && log == old(log)
      ensures finishedStatus >= ClComplete && x in submitted && depsMet && old(status)[x] == ClQueued ==>
        && status == old(status)[x := ClSubmitted]
        && commandList == Remove(old(commandList), x) && |commandList| == |old(commandList)| - 1
        && readyList == [] && log == old(log) + DrainLog([x] + old(readyList), kinds)
      ensures finishedStatus >= ClComplete && !(x in submitted && depsMet && old(status)[x] == ClQueued) ==>
        && status == old(status) && readyList == old(readyList) && commandList == old(commandList) && log == old(log)
    {
      if finishedStatus < ClComplete {
        status := status[x := ClFailed];
        return;
      }
      if x !in submitted {
        return;
      }
      if depsMet {
        if status[x] == ClQueued {
          status := status[x := ClSubmitted];
          commandList := Remove(commandList, x);
          readyList := [x] + readyList;
          Drain();
        }
        return;
      }
    }
  }
}
