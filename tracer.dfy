/** The task controller (src/ptracer.cpp): it lists the threads of a
    process, attaches to each with `ptrace`, reads and writes their
    register sets, and detaches. The kernel is abstract: the listing of
    `/proc/<pid>/task`, and what `ptrace` and `waitpid` return, are given
    as functions. */
module Tracer {
  import opened Common
  import opened Maps

  /** `pid_t` is a signed 32-bit integer: a parsed task number is cut to
      its low 32 bits and read as two's complement. */
  const PID_MIN: int := -0x8000_0000
  const PID_COUNT: nat := 0x1_0000_0000

  function ToPid(n: ulong): (p: int)
    ensures PID_MIN <= p < PID_MIN + PID_COUNT
    ensures p % UINT_MOD == n % UINT_MOD
    ensures n <= 0x7fff_ffff ==> p == n
  {
    var w := n % UINT_MOD;
    if w < 0x8000_0000 then w else w - UINT_MOD
  }

  /** Every element is a `pid_t` value. */
  predicate InPidRange(s: seq<int>)
  {
    forall i :: 0 <= i < |s| ==> PID_MIN <= s[i] < PID_MIN + PID_COUNT
  }

  /** No task is listed twice. */
  predicate Distinct(s: seq<int>)
  {
    forall i, j :: 0 <= i < j < |s| ==> s[i] != s[j]
  }

  /** Every element of `v1` occurs in `v2`: the `all_in` helper of `init`. */
  predicate AllIn(v1: seq<int>, v2: seq<int>)
  {
    forall i :: 0 <= i < |v1| ==> v1[i] in v2
  }

  /** The task numbers named by the entries of a task directory: all of
      them if every name is a decimal number, otherwise none. */
  function TasksOf(names: seq<string>): (v: seq<int>)
    ensures InPidRange(v)
    ensures v == [] || |v| == |names|
  {
    if names == [] then []
    else
      var rest := TasksOf(names[..|names| - 1]);
      var p := ParseUlong(names[|names| - 1]);
      if p.None? || (rest == [] && |names| > 1) then []
      else rest + [ToPid(p.value)]
  }

  /** Every name parses: the task numbers, one per name in order; some
      name does not: no task at all. */
  lemma {:induction false} TasksOfSpec(names: seq<string>)
    ensures (forall i :: 0 <= i < |names| ==> ParseUlong(names[i]).Some?) ==>
              |TasksOf(names)| == |names| &&
              forall i :: 0 <= i < |names| ==> TasksOf(names)[i] == ToPid(ParseUlong(names[i]).value)
    ensures (exists i :: 0 <= i < |names| && ParseUlong(names[i]).None?) ==> TasksOf(names) == []
  {
    if names != [] {
      var init := names[..|names| - 1];
      TasksOfSpec(init);
      assert forall i :: 0 <= i < |init| ==> init[i] == names[i];
    }
  }

  /** The tasks of `ts`, in order, that are neither in `have` nor earlier
      in `ts`: those one round of `init` attaches to. */
  function Fresh(ts: seq<int>, have: seq<int>): seq<int>
  {
    if ts == [] then []
    else
      var f := Fresh(ts[..|ts| - 1], have);
      var x := ts[|ts| - 1];
      if x in have || x in f then f else f + [x]
  }

  /** A round attaches only new tasks, each once, and afterwards every
      listed task is attached. */
  lemma {:induction false} FreshSpec(ts: seq<int>, have: seq<int>)
    ensures forall x :: x in Fresh(ts, have) ==> x in ts && x !in have
    ensures Distinct(Fresh(ts, have))
    ensures forall x :: x in ts ==> x in have || x in Fresh(ts, have)
  {
    if ts != [] {
      var init := ts[..|ts| - 1];
      FreshSpec(init, have);
      assert ts == init + [ts[|ts| - 1]];
    }
  }

  /** After a round, every listed task is attached: the condition that
      ends `init`'s loop holds as soon as one round has run. */
  lemma RoundAttachesAll(ts: seq<int>, have: seq<int>)
    ensures AllIn(ts, have + Fresh(ts, have))
  {
    FreshSpec(ts, have);
  }

  /** The round over a prefix of the listing attaches a prefix of what the
      whole round attaches. */
  lemma {:induction false} FreshPrefix(ts: seq<int>, have: seq<int>, i: nat)
    requires i <= |ts|
    ensures |Fresh(ts[..i], have)| <= |Fresh(ts, have)|
    ensures Fresh(ts, have)[..|Fresh(ts[..i], have)|] == Fresh(ts[..i], have)
  {
    if i < |ts| {
      var init := ts[..|ts| - 1];
      assert init[..i] == ts[..i];
      FreshPrefix(init, have, i);
    } else {
      assert ts[..i] == ts;
    }
  }

  /** The `pid_t` values among `have`. */
  function Taken(have: seq<int>): set<int>
  {
    set x | x in have && PID_MIN <= x < PID_MIN + PID_COUNT
  }

  /** A round that attaches a new task takes one more `pid_t` value, of
      which there are finitely many. */
  lemma TakenGrows(ts: seq<int>, have: seq<int>)
    requires InPidRange(ts) && Fresh(ts, have) != []
    ensures |Taken(have)| < |Taken(have + Fresh(ts, have))| <= PID_COUNT
  {
    var f := Fresh(ts, have);
    FreshSpec(ts, have);
    assert f[0] in f;
    var before, after := Taken(have), Taken(have + f);
    assert f[0] in after - before;
    assert after == before + (after - before);
    assert before * (after - before) == {};
    RangeSubsetCard(after, PID_MIN, PID_COUNT);
  }

  /** A set of integers from `lo`, ..., `lo + n - 1` has at most `n` members. */
  lemma {:induction false} RangeSubsetCard(small: set<int>, lo: int, n: nat)
    requires forall x :: x in small ==> lo <= x < lo + n
    ensures |small| <= n
  {
    if n > 0 {
      var rest := small - {lo + n - 1};
      RangeSubsetCard(rest, lo, n - 1);
    } else {
      assert forall x :: x !in small;
    }
  }


  /** Adding a round's new tasks to a duplicate-free list of `pid_t` values
      keeps it so. */
  lemma RoundDistinct(ts: seq<int>, have: seq<int>)
    requires Distinct(have) && InPidRange(have) && InPidRange(ts)
    ensures Distinct(have + Fresh(ts, have)) && InPidRange(have + Fresh(ts, have))
  {
    FreshSpec(ts, have);
    var f := Fresh(ts, have);
    var all := have + f;
    forall i | 0 <= i < |f|
      ensures PID_MIN <= f[i] < PID_MIN + PID_COUNT
    {
      assert f[i] in ts;
    }
    forall i, j | 0 <= i < j < |all|
      ensures all[i] != all[j]
    {
      if |have| <= i {
        assert all[i] == f[i - |have|] && all[j] == f[j - |have|];
      } else if |have| <= j {
        assert all[j] == f[j - |have|];
        assert all[j] in f;
      }
    }
  }


  /** What `waitpid` and `ptrace(PTRACE_ATTACH)` report for one task. */
  datatype AttachReply = AttachReply(ptraceRet: int, waitRet: int, stopped: bool)

  /** `ptracer::attach`: fails with `ptrace`'s error, or with -1 when
      `waitpid` fails. When the task did not stop, or `waitpid` reported
      another process, it returns `waitpid`'s result, which is not
      negative, so a caller that tests for a negative result takes it as
      success. */
  function Attach(pid: int, reply: AttachReply): (r: int)
    ensures reply.ptraceRet < 0 ==> r == reply.ptraceRet
    ensures 0 < pid ==> (r < 0 <==> reply.ptraceRet < 0 || reply.waitRet < 0)
    ensures 0 < pid ==> (r == 0 <==> reply.ptraceRet >= 0 && ((reply.waitRet == pid && reply.stopped) || reply.waitRet == 0))
    ensures 0 <= reply.ptraceRet && 0 <= reply.waitRet && !(reply.waitRet == pid && reply.stopped) ==> r == reply.waitRet
  {
    if reply.ptraceRet < 0 then reply.ptraceRet
    else if reply.waitRet == -1 then -1
    else if reply.waitRet == pid then (if !reply.stopped then reply.waitRet else 0)
    else reply.waitRet
  }

  /** `ptrace(PTRACE_GETREGS)` or `ptrace(PTRACE_GETFPREGS)`. */
  datatype RegSet = General | FloatingPoint


  /** The longest prefix of `f` whose tasks all attach: `init` stops a
      round at the first task whose attachment fails. */
  function Attachable(f: seq<int>, attach: int -> AttachReply): (a: seq<int>)
    ensures |a| <= |f| && a == f[..|a|]
    ensures forall i :: 0 <= i < |a| ==> 0 <= Attach(a[i], attach(a[i]))
    ensures |a| < |f| ==> Attach(f[|a|], attach(f[|a|])) < 0
  {
    if f == [] || Attach(f[0], attach(f[0])) < 0 then []
    else [f[0]] + Attachable(f[1..], attach)
  }

  /** A prefix of successful attachments that ends at the end of `f` or at
      a failure is the one `Attachable` gives. */
  lemma {:induction false} AttachableUnique(f: seq<int>, attach: int -> AttachReply, a: seq<int>)
    requires |a| <= |f| && a == f[..|a|]
    requires forall i :: 0 <= i < |a| ==> 0 <= Attach(a[i], attach(a[i]))
    requires |a| < |f| ==> Attach(f[|a|], attach(f[|a|])) < 0
    ensures a == Attachable(f, attach)
  {
    if a != [] {
      assert a[0] == f[0];
      AttachableUnique(f[1..], attach, a[1..]);
    }
  }

  /** The outcome of `init`'s loop: its result, how many times it listed
      the tasks, the tasks it attached, and the last listing. */
  datatype InitOutcome = InitOutcome(ret: int, rounds: nat, attached: seq<int>, tasks: seq<int>)

  /** The result `init` keeps after a round that attached `a`. */
  function LastRet(a: seq<int>, attach: int -> AttachReply, ret: int): int
  {
    if a == [] then ret else Attach(a[|a| - 1], attach(a[|a| - 1]))
  }

  /** `init` with the loop its comment describes, from round `k` on, with
      the tasks `have` attached so far: list the tasks (the `k`-th listing),
      give up if there are none, attach the new ones, give up at the first
      failure, and stop once a round finds no new task. Each further round
      attaches a new `pid_t` value, of which there are finitely many. */
  function Rounds(listing: nat -> seq<string>, attach: int -> AttachReply, k: nat, have: seq<int>, ret: int):
    (r: InitOutcome)
    decreases PID_COUNT - |Taken(have)|
  {
    var ts := TasksOf(listing(k));
    var f := Fresh(ts, have);
    var a := Attachable(f, attach);
    if ts == [] then InitOutcome(-1, k + 1, have, ts)
    else if |a| < |f| then InitOutcome(-1, k + 1, have + a, ts)
    else if f == [] then InitOutcome(ret, k + 1, have, ts)
    else
      TakenGrows(ts, have);
      Rounds(listing, attach, k + 1, have + f, LastRet(f, attach, ret))
  }

  /** A value for a case that cannot arise. */
  const Unreached := InitOutcome(-1, 0, [], [])

  /** `init` as written: the loop goes on while some task of the latest
      listing is not attached, tested after the round has attached every
      new task of that listing. */
  function RoundsAsWritten(listing: nat -> seq<string>, attach: int -> AttachReply, k: nat, have: seq<int>, ret: int):
    (r: InitOutcome)
    ensures have <= r.attached && r.rounds == k + 1
  {
    var ts := TasksOf(listing(k));
    var f := Fresh(ts, have);
    var a := Attachable(f, attach);
    if ts == [] then InitOutcome(-1, k + 1, have, ts)
    else if |a| < |f| then InitOutcome(-1, k + 1, have + a, ts)
    else if AllIn(ts, have + f) then InitOutcome(LastRet(f, attach, ret), k + 1, have + f, ts)
    else
      RoundAttachesAll(ts, have);
      assert false;
      Unreached
  }

  /** The `for` loop of one round of `init`: attach, in listing order,
      every task not attached already, stopping at the first failure. */
  method AttachNew(ts: seq<int>, have: seq<int>, attach: int -> AttachReply, ret0: int)
    returns (ok: bool, added: seq<int>, ret: int)
    ensures added == Attachable(Fresh(ts, have), attach)
    ensures ok <==> |added| == |Fresh(ts, have)|
    ensures ok ==> ret == LastRet(added, attach, ret0)
  {
    added := [];
    ret := ret0;
    var i := 0;
    while i < |ts|
      invariant i <= |ts| && added == Fresh(ts[..i], have)
      invariant forall j :: 0 <= j < |added| ==> 0 <= Attach(added[j], attach(added[j]))
      invariant ret == LastRet(added, attach, ret0)
    {
      var p := ts[i];
      assert ts[..i + 1][..i] == ts[..i];
      if p in have || p in added {
        i := i + 1;
        continue;
      }
      ret := Attach(p, attach(p));
      if ret < 0 {
        FreshPrefix(ts, have, i + 1);
        AttachableUnique(Fresh(ts, have), attach, added);
        return false, added, ret;
      }
      added := added + [p];
      i := i + 1;
    }
    assert ts[..i] == ts;
    AttachableUnique(Fresh(ts, have), attach, added);
    ok := true;
  }

  /** One round of `Rounds`, case by case. */
  lemma RoundsEmpty(listing: nat -> seq<string>, attach: int -> AttachReply, k: nat, have: seq<int>, ret: int)
    requires TasksOf(listing(k)) == []
    ensures Rounds(listing, attach, k, have, ret) == InitOutcome(-1, k + 1, have, [])
  {
  }

  lemma RoundsFailed(listing: nat -> seq<string>, attach: int -> AttachReply, k: nat, have: seq<int>, ret: int,
                     a: seq<int>)
    requires TasksOf(listing(k)) != []
    requires a == Attachable(Fresh(TasksOf(listing(k)), have), attach) && |a| < |Fresh(TasksOf(listing(k)), have)|
    ensures Rounds(listing, attach, k, have, ret) == InitOutcome(-1, k + 1, have + a, TasksOf(listing(k)))
  {
  }

  lemma RoundsDone(listing: nat -> seq<string>, attach: int -> AttachReply, k: nat, have: seq<int>, ret: int)
    requires TasksOf(listing(k)) != [] && Fresh(TasksOf(listing(k)), have) == []
    ensures Rounds(listing, attach, k, have, ret) == InitOutcome(ret, k + 1, have, TasksOf(listing(k)))
  {
  }

  lemma RoundsNext(listing: nat -> seq<string>, attach: int -> AttachReply, k: nat, have: seq<int>, ret: int,
                   f: seq<int>)
    requires TasksOf(listing(k)) != [] && f == Fresh(TasksOf(listing(k)), have)
    requires f != [] && Attachable(f, attach) == f
    ensures |Taken(have)| < |Taken(have + f)| <= PID_COUNT
    ensures Rounds(listing, attach, k, have, ret) == Rounds(listing, attach, k + 1, have + f, LastRet(f, attach, ret))
  {
    TakenGrows(TasksOf(listing(k)), have);
  }

  lemma AsWrittenEmpty(listing: nat -> seq<string>, attach: int -> AttachReply, k: nat, have: seq<int>, ret: int)
    requires TasksOf(listing(k)) == []
    ensures RoundsAsWritten(listing, attach, k, have, ret) == InitOutcome(-1, k + 1, have, [])
  {
  }

  /** The rest of a round of `Rounds` once its listing is not empty, in
      the terms of `AttachNew`'s results. */
  lemma RoundsAfter(listing: nat -> seq<string>, attach: int -> AttachReply, k: nat, have: seq<int>, ret: int,
                    ok: bool, added: seq<int>)
    requires TasksOf(listing(k)) != []
    requires added == Attachable(Fresh(TasksOf(listing(k)), have), attach)
    requires ok <==> |added| == |Fresh(TasksOf(listing(k)), have)|
    ensures !ok ==> Rounds(listing, attach, k, have, ret) == InitOutcome(-1, k + 1, have + added, TasksOf(listing(k)))
    ensures ok && added == [] ==> Rounds(listing, attach, k, have, ret) == InitOutcome(ret, k + 1, have, TasksOf(listing(k)))
    ensures ok && added != [] ==>
              |Taken(have)| < |Taken(have + added)| <= PID_COUNT &&
              Rounds(listing, attach, k, have, ret) == Rounds(listing, attach, k + 1, have + added, LastRet(added, attach, ret))
  {
    var f := Fresh(TasksOf(listing(k)), have);
    if !ok {
      RoundsFailed(listing, attach, k, have, ret, added);
    } else {
      assert added == f;
      if added == [] {
        RoundsDone(listing, attach, k, have, ret);
      } else {
        RoundsNext(listing, attach, k, have, ret, f);
      }
    }
  }

  /** The same for `RoundsAsWritten`: a round that attaches every new task
      leaves every listed task attached, which ends the loop. */
  lemma AsWrittenAfter(listing: nat -> seq<string>, attach: int -> AttachReply, k: nat, have: seq<int>, ret: int,
                       ok: bool, added: seq<int>)
    requires TasksOf(listing(k)) != []
    requires added == Attachable(Fresh(TasksOf(listing(k)), have), attach)
    requires ok <==> |added| == |Fresh(TasksOf(listing(k)), have)|
    ensures !ok ==> RoundsAsWritten(listing, attach, k, have, ret) ==
                    InitOutcome(-1, k + 1, have + added, TasksOf(listing(k)))
    ensures ok ==> AllIn(TasksOf(listing(k)), have + added) &&
                   RoundsAsWritten(listing, attach, k, have, ret) ==
                   InitOutcome(LastRet(added, attach, ret), k + 1, have + added, TasksOf(listing(k)))
  {
    if ok {
      assert added == Fresh(TasksOf(listing(k)), have);
      RoundAttachesAll(TasksOf(listing(k)), have);
    }
  }

  /** The task list `init` keeps after `n` rounds: the last listing. */
  function LastListing(listing: nat -> seq<string>, n: nat): seq<int>
  {
    if n == 0 then [] else TasksOf(listing(n - 1))
  }

  /** `init`'s loop from round `k` on lists the tasks at least once more. */
  lemma {:induction false} RoundsListing(listing: nat -> seq<string>, attach: int -> AttachReply,
                                         k: nat, have: seq<int>, ret: int)
    ensures k < Rounds(listing, attach, k, have, ret).rounds
    decreases PID_COUNT - |Taken(have)|
  {
    var ts := TasksOf(listing(k));
    var f := Fresh(ts, have);
    var a := Attachable(f, attach);
    if ts == [] {
      RoundsEmpty(listing, attach, k, have, ret);
    } else if |a| < |f| {
      RoundsFailed(listing, attach, k, have, ret, a);
    } else if f == [] {
      RoundsDone(listing, attach, k, have, ret);
    } else {
      RoundsNext(listing, attach, k, have, ret, f);
      RoundsListing(listing, attach, k + 1, have + f, LastRet(f, attach, ret));
    }
  }

  /** `init` keeps the tasks of its last listing. */
  lemma {:induction false} RoundsLast(listing: nat -> seq<string>, attach: int -> AttachReply,
                                      k: nat, have: seq<int>, ret: int)
    ensures var r := Rounds(listing, attach, k, have, ret);
      r.tasks == LastListing(listing, r.rounds)
    decreases PID_COUNT - |Taken(have)|
  {
    var ts := TasksOf(listing(k));
    var f := Fresh(ts, have);
    var a := Attachable(f, attach);
    if ts == [] {
      RoundsEmpty(listing, attach, k, have, ret);
    } else if |a| < |f| {
      RoundsFailed(listing, attach, k, have, ret, a);
    } else if f == [] {
      RoundsDone(listing, attach, k, have, ret);
    } else {
      RoundsNext(listing, attach, k, have, ret, f);
      RoundsLast(listing, attach, k + 1, have + f, LastRet(f, attach, ret));
    }
  }

  /** The tasks attached before round `k` stay a prefix of those `init`'s
      loop attaches. */
  lemma {:induction false} RoundsAttachPrefix(listing: nat -> seq<string>, attach: int -> AttachReply,
                                              k: nat, have: seq<int>, ret: int)
    ensures var s := Rounds(listing, attach, k, have, ret).attached;
      |have| <= |s| && s[..|have|] == have
    decreases PID_COUNT - |Taken(have)|
  {
    var ts := TasksOf(listing(k));
    var f := Fresh(ts, have);
    var a := Attachable(f, attach);
    if ts == [] {
      RoundsEmpty(listing, attach, k, have, ret);
    } else if |a| < |f| {
      RoundsFailed(listing, attach, k, have, ret, a);
      assert (have + a)[..|have|] == have;
    } else if f == [] {
      RoundsDone(listing, attach, k, have, ret);
    } else {
      RoundsNext(listing, attach, k, have, ret, f);
      var r' := LastRet(f, attach, ret);
      RoundsAttachPrefix(listing, attach, k + 1, have + f, r');
      var s := Rounds(listing, attach, k + 1, have + f, r').attached;
      assert (have + f)[..|have|] == have;
      assert s[..|have|] == (s[..|have + f|])[..|have|];
    }
  }

  /** Every task `init`'s loop attaches from round `k` on was attached
      with a non-negative result. */
  lemma {:induction false} RoundsAttachSucceeded(listing: nat -> seq<string>, attach: int -> AttachReply,
                                                 k: nat, have: seq<int>, ret: int)
    ensures var s := Rounds(listing, attach, k, have, ret).attached;
      forall i :: |have| <= i < |s| ==> 0 <= Attach(s[i], attach(s[i]))
    decreases PID_COUNT - |Taken(have)|
  {
    var ts := TasksOf(listing(k));
    var f := Fresh(ts, have);
    var a := Attachable(f, attach);
    if ts == [] {
      RoundsEmpty(listing, attach, k, have, ret);
    } else if |a| < |f| {
      RoundsFailed(listing, attach, k, have, ret, a);
      AppendOk(have, a, attach);
    } else if f == [] {
      RoundsDone(listing, attach, k, have, ret);
    } else {
      RoundsNext(listing, attach, k, have, ret, f);
      var r' := LastRet(f, attach, ret);
      RoundsAttachSucceeded(listing, attach, k + 1, have + f, r');
      RoundsAttachPrefix(listing, attach, k + 1, have + f, r');
      AppendOk(have, f, attach);
      var s := Rounds(listing, attach, k + 1, have + f, r').attached;
      forall i | |have| <= i < |have + f|
        ensures 0 <= Attach(s[i], attach(s[i]))
      {
        assert s[i] == (s[..|have + f|])[i];
      }
    }
  }

  /** No task is attached twice, and every attached task is a `pid_t`
      value, when that holds of those attached before round `k`. */
  lemma {:induction false} RoundsAttachOnce(listing: nat -> seq<string>, attach: int -> AttachReply,
                                            k: nat, have: seq<int>, ret: int)
    requires Distinct(have) && InPidRange(have)
    ensures var s := Rounds(listing, attach, k, have, ret).attached;
      Distinct(s) && InPidRange(s)
    decreases PID_COUNT - |Taken(have)|
  {
    var ts := TasksOf(listing(k));
    var f := Fresh(ts, have);
    var a := Attachable(f, attach);
    if ts == [] {
      RoundsEmpty(listing, attach, k, have, ret);
    } else if |a| < |f| {
      RoundsFailed(listing, attach, k, have, ret, a);
      RoundDistinct(ts, have);
      PrefixDistinct(have, f, |a|);
    } else if f == [] {
      RoundsDone(listing, attach, k, have, ret);
    } else {
      RoundsNext(listing, attach, k, have, ret, f);
      RoundDistinct(ts, have);
      RoundsAttachOnce(listing, attach, k + 1, have + f, LastRet(f, attach, ret));
    }
  }

  lemma AppendOk(have: seq<int>, a: seq<int>, attach: int -> AttachReply)
    requires forall i :: 0 <= i < |a| ==> 0 <= Attach(a[i], attach(a[i]))
    ensures forall i :: |have| <= i < |have + a| ==> 0 <= Attach((have + a)[i], attach((have + a)[i]))
  {
    forall i | |have| <= i < |have + a|
      ensures 0 <= Attach((have + a)[i], attach((have + a)[i]))
    {
      assert (have + a)[i] == a[i - |have|];
    }
  }

  /** Cutting the new tasks short keeps the list duplicate-free. */
  lemma PrefixDistinct(have: seq<int>, f: seq<int>, n: nat)
    requires n <= |f| && Distinct(have + f) && InPidRange(have + f)
    ensures Distinct(have + f[..n]) && InPidRange(have + f[..n])
  {
    assert have + f[..n] == (have + f)[..|have| + n];
  }

  /** How `init`'s loop ends from round `k` on, given a non-negative result
      so far: with -1 exactly when the last listing was empty or one of its
      new tasks could not be attached, and otherwise with the last listing
      showing no task that was not already attached (after at least two
      listings when no task was attached before). */
  lemma {:induction false} RoundsResult(listing: nat -> seq<string>, attach: int -> AttachReply,
                                        k: nat, have: seq<int>, ret: int)
    requires 0 <= ret
    ensures var r := Rounds(listing, attach, k, have, ret);
      && (r.ret < 0 ==> r.ret == -1 &&
                        (r.tasks == [] ||
                         exists p :: p in r.tasks && p !in r.attached && Attach(p, attach(p)) < 0))
      && (0 <= r.ret ==> r.tasks != [] && AllIn(r.tasks, r.attached))
      && (0 <= r.ret && have == [] ==> k + 2 <= r.rounds)
    decreases PID_COUNT - |Taken(have)|
  {
    var ts := TasksOf(listing(k));
    var f := Fresh(ts, have);
    var a := Attachable(f, attach);
    if ts == [] {
      RoundsEmpty(listing, attach, k, have, ret);
    } else if |a| < |f| {
      RoundsFailed(listing, attach, k, have, ret, a);
      FreshSpec(ts, have);
      FreshAt(ts, have, a);
    } else if f == [] {
      RoundsDone(listing, attach, k, have, ret);
      RoundAttachesAll(ts, have);
    } else {
      RoundsNext(listing, attach, k, have, ret, f);
      RoundsResult(listing, attach, k + 1, have + f, LastRet(f, attach, ret));
      RoundsListing(listing, attach, k + 1, have + f, LastRet(f, attach, ret));
    }
  }

  /** The task at which a round stops is listed and attached neither before
      the round nor earlier in it. */
  lemma FreshAt(ts: seq<int>, have: seq<int>, a: seq<int>)
    requires |a| < |Fresh(ts, have)| && a == Fresh(ts, have)[..|a|]
    ensures Fresh(ts, have)[|a|] in ts && Fresh(ts, have)[|a|] !in have + a
  {
    var f := Fresh(ts, have);
    FreshSpec(ts, have);
    assert f[|a|] in f;
    forall i | 0 <= i < |a|
      ensures a[i] != f[|a|]
    {
      assert a[i] == f[i];
    }
  }

  /** `init` as written on the smallest case that shows its fault: the
      process has task 1 when the tasks are first listed and task 2 as
      well afterwards. The loop stops after one listing with task 2 not
      attached, while the loop that repeats until a listing shows nothing
      new attaches both. */
  lemma AsWrittenMissesLateTask(attach: int -> AttachReply)
    requires AllAttach(attach)
    ensures var listing := (k: nat) => if k == 0 then ["1"] else ["1", "2"];
      && RoundsAsWritten(listing, attach, 0, [], 0).attached == [1]
      && 2 in TasksOf(listing(1))
      && Rounds(listing, attach, 0, [], 0).attached == [1, 2]
  {
    var listing := (k: nat) => if k == 0 then ["1"] else ["1", "2"];
    OneTwo();
    assert Fresh([1], []) == [1];
    assert Fresh([1, 2], [1]) == [2] by {
      assert [1, 2][..1] == [1];
    }
    assert Fresh([1, 2], [1, 2]) == [] by {
      assert [1, 2][..1] == [1];
    }
  }

  /** Every attachment succeeds. */
  ghost predicate AllAttach(attach: int -> AttachReply)
  {
    forall p :: Attach(p, attach(p)) == 0
  }

  lemma OneTwo()
    ensures TasksOf(["1"]) == [1] && TasksOf(["1", "2"]) == [1, 2]
  {
    ParseUlongSpec("1", 10);
    ParseUlongSpec("2", 10);
    assert ["1", "2"][..1] == ["1"];
  }

  /** `get_tasks`: parse every directory entry name as a task number,
      giving up with an empty list at the first one that is not. */
  method GetTasks(names: seq<string>) returns (v: seq<int>)
    ensures v == TasksOf(names)
  {
    v := [];
    var i := 0;
    while i < |names|
      invariant i <= |names| && |v| == i
      invariant v == TasksOf(names[..i])
    {
      var p := ParseUlong(names[i]);
      assert names[..i + 1][..i] == names[..i];
      if p.None? {
        TasksOfSpec(names);
        return [];
      }
      v := v + [ToPid(p.value)];
      i := i + 1;
    }
    assert names[..i] == names;
  }

  /** The `do ... while` loop of `init` as written: list the tasks, attach
      the new ones, and go round again while some listed task is not
      attached. */
  method AttachLoopAsWritten(listing: nat -> seq<string>, attach: int -> AttachReply) returns (out: InitOutcome)
    ensures out == RoundsAsWritten(listing, attach, 0, [], 0)
  {
    var attached := [];
    var ret := 0;
    var rounds := 0;
    var listed: seq<int> := [];
    var again := true;
    while again
      invariant again ==> RoundsAsWritten(listing, attach, rounds, attached, ret) ==
                          RoundsAsWritten(listing, attach, 0, [], 0)
      invariant !again ==> InitOutcome(ret, rounds, attached, listed) == RoundsAsWritten(listing, attach, 0, [], 0)
      decreases if again then 1 else 0
    {
      listed := GetTasks(listing(rounds));
      if listed == [] {
        AsWrittenEmpty(listing, attach, rounds, attached, ret);
        ret, rounds := -1, rounds + 1;
        break;
      }
      var ok, added, r := AttachNew(listed, attached, attach, ret);
      AsWrittenAfter(listing, attach, rounds, attached, ret, ok, added);
      if !ok {
        ret, rounds, attached := -1, rounds + 1, attached + added;
        break;
      }
      ret := r;
      attached := attached + added;
      rounds := rounds + 1;
      again := !AllIn(listed, attached);
    }
    return InitOutcome(ret, rounds, attached, listed);
  }

  /** The loop of `init` as its comment describes it: go round again until
      a listing shows no task that is not attached yet. */
  method AttachLoop(listing: nat -> seq<string>, attach: int -> AttachReply) returns (out: InitOutcome)
    ensures out == Rounds(listing, attach, 0, [], 0)
  {
    var attached := [];
    var ret := 0;
    var rounds := 0;
    var listed: seq<int> := [];
    while true
      invariant Rounds(listing, attach, rounds, attached, ret) == Rounds(listing, attach, 0, [], 0)
      decreases PID_COUNT - |Taken(attached)|
    {
      listed := GetTasks(listing(rounds));
      if listed == [] {
        RoundsEmpty(listing, attach, rounds, attached, ret);
        ret, rounds := -1, rounds + 1;
        break;
      }
      var ok, added, r := AttachNew(listed, attached, attach, ret);
      RoundsAfter(listing, attach, rounds, attached, ret, ok, added);
      if !ok {
        ret, rounds, attached := -1, rounds + 1, attached + added;
        break;
      }
      if added == [] {
        rounds := rounds + 1;
        break;
      }
      ret := r;
      attached := attached + added;
      rounds := rounds + 1;
    }
    return InitOutcome(ret, rounds, attached, listed);
  }

  class Ptracer {
    var pid: int
    var tasks: seq<int>
    var initialized: bool

    /** `ptracer(pid)`: no tasks yet, not initialised. */
    constructor(pid: int)
      ensures this.pid == pid && tasks == [] && !initialized
    {
      this.pid := pid;
      tasks := [];
      initialized := false;
    }

    /** `init` as written: `listing(k)` is the `k`-th listing of the task
        directory and `attach(p)` what the kernel answers when task `p` is
        attached. The last listing becomes the task list, and a result that
        is not negative makes the tracer initialised. */
    method InitAsWritten(listing: nat -> seq<string>, attach: int -> AttachReply)
      returns (ret: int, rounds: nat, attached: seq<int>)
      modifies this
      ensures pid == old(pid)
      ensures InitOutcome(ret, rounds, attached, tasks) == RoundsAsWritten(listing, attach, 0, [], 0)
      ensures initialized == (0 <= ret || old(initialized))
    {
      var out := AttachLoopAsWritten(listing, attach);
      tasks := out.tasks;
      if 0 <= out.ret {
        initialized := true;
      }
      return out.ret, out.rounds, out.attached;
    }

    /** `init` with the loop its comment describes. */
    method Init(listing: nat -> seq<string>, attach: int -> AttachReply)
      returns (ret: int, rounds: nat, attached: seq<int>)
      modifies this
      ensures pid == old(pid)
      ensures InitOutcome(ret, rounds, attached, tasks) == Rounds(listing, attach, 0, [], 0)
      ensures initialized == (0 <= ret || old(initialized))
    {
      var out := AttachLoop(listing, attach);
      tasks := out.tasks;
      if 0 <= out.ret {
        initialized := true;
      }
      return out.ret, out.rounds, out.attached;
    }

    /** `get_regs` and `get_fpregs`: one snapshot per task, in task order,
        or none if any capture fails; `snapshot(regSet, p)` is what
        `ptrace` reads from task `p`. */
    method GetSnapshots(regSet: RegSet, snapshot: (RegSet, int) -> Option<seq<byte>>) returns (v: seq<seq<byte>>)
      ensures (forall i :: 0 <= i < |tasks| ==> snapshot(regSet, tasks[i]).Some?) ==>
                |v| == |tasks| && forall i :: 0 <= i < |tasks| ==> v[i] == snapshot(regSet, tasks[i]).value
      ensures (exists i :: 0 <= i < |tasks| && snapshot(regSet, tasks[i]).None?) ==> v == []
    {
      v := [];
      var i := 0;
      while i < |tasks|
        invariant i <= |tasks| && |v| == i
        invariant forall j :: 0 <= j < i ==> snapshot(regSet, tasks[j]).Some? && v[j] == snapshot(regSet, tasks[j]).value
      {
        var regs := snapshot(regSet, tasks[i]);
        if regs.None? {
          return [];
        }
        v := v + [regs.value];
        i := i + 1;
      }
    }

    /** `set_regs` and `set_fpregs`: -1 unless there is one snapshot per
        task; otherwise write `v[i]` to the `i`-th task in order, -1 at
        the first write that fails, 0 when all succeed. `write(regSet, p, s)`
        is `ptrace`'s result; `written` counts the tasks written. */
    method SetSnapshots(regSet: RegSet, v: seq<seq<byte>>, write: (RegSet, int, seq<byte>) -> int)
      returns (r: int, written: nat)
      ensures |v| != |tasks| ==> r == -1 && written == 0
      ensures |v| == |tasks| ==> written <= |tasks| &&
                                 forall i :: 0 <= i < written ==> 0 <= write(regSet, tasks[i], v[i])
      ensures |v| == |tasks| ==> (r == 0 <==> written == |tasks|)
      ensures |v| == |tasks| && written < |tasks| ==> r == -1 && write(regSet, tasks[written], v[written]) < 0
    {
      if |tasks| != |v| {
        return -1, 0;
      }
      written := 0;
      while written < |tasks|
        invariant written <= |tasks|
        invariant forall i :: 0 <= i < written ==> 0 <= write(regSet, tasks[i], v[i])
      {
        if write(regSet, tasks[written], v[written]) < 0 {
          return -1, written;
        }
        written := written + 1;
      }
      r := 0;
    }

    /** `detach`: `ptrace(PTRACE_DETACH)` on the process, whose result is
        `detachRet`; on success the tracer is no longer initialised. */
    method Detach(detachRet: int) returns (ret: int)
      modifies this
      ensures ret == detachRet
      ensures pid == old(pid) && tasks == old(tasks)
      ensures initialized == (old(initialized) && detachRet < 0)
    {
      ret := detachRet;
      if ret < 0 {
        return;
      }
      initialized := false;
    }

    /** `~ptracer`: detach only if `init` succeeded. */
    method Finalize(detachRet: int) returns (detached: bool)
      modifies this
      ensures detached == old(initialized)
      ensures pid == old(pid) && tasks == old(tasks)
      ensures initialized == (old(initialized) && detachRet < 0)
    {
      detached := initialized;
      if initialized {
        var _ := Detach(detachRet);
      }
    }
  }
}
