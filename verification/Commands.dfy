/** Commands run in parallel batches (src/xpk/core/commands.py) over the chunks of src/xpk/utils/objects.py. */
module Commands {

  datatype Failed = Failed(returnCode: int, name: string, command: string, logfile: string)

  /** A child process: the second at which it ends after its start, and its return code.  A child
      killed by a signal has a negative code. */
  datatype Child = Child(finish: nat, code: int)

  // ----- chunks -----

  /** [xs[i : i + n] for i in range(0, len(xs), n)] */
  function Chunks<T>(xs: seq<T>, n: nat): seq<seq<T>>
    requires n >= 1
  {
    if xs == [] then []
    else if |xs| <= n then [xs]
    else [xs[..n]] + Chunks(xs[n..], n)
  }

  function Concat<T>(xss: seq<seq<T>>): seq<T> {
    if xss == [] then [] else xss[0] + Concat(xss[1..])
  }

  /** The chunks are the list cut in order; only the last one may be short. */
  lemma {:induction false} ChunksPartition<T>(xs: seq<T>, n: nat)
    requires n >= 1
    ensures Concat(Chunks(xs, n)) == xs
    ensures forall i | 0 <= i < |Chunks(xs, n)| :: 1 <= |Chunks(xs, n)[i]| <= n
    ensures forall i | 0 <= i < |Chunks(xs, n)| - 1 :: |Chunks(xs, n)[i]| == n
    decreases |xs|
  {
    if xs != [] && |xs| > n {
      var rest := Chunks(xs[n..], n);
      ChunksPartition(xs[n..], n);
      assert Chunks(xs, n) == [xs[..n]] + rest && ([xs[..n]] + rest)[1..] == rest;
      assert xs[..n] + xs[n..] == xs;
    } else if xs != [] {
      assert Chunks(xs, n)[1..] == [];
      assert xs + [] == xs;
    }
  }

  /** Lists of equal length are cut at the same places. */
  lemma {:induction false} ChunksAligned<S, T>(xs: seq<S>, ys: seq<T>, n: nat)
    requires n >= 1 && |xs| == |ys|
    ensures |Chunks(xs, n)| == |Chunks(ys, n)|
    ensures forall i | 0 <= i < |Chunks(xs, n)| :: |Chunks(xs, n)[i]| == |Chunks(ys, n)[i]|
    decreases |xs|
  {
    if |xs| > n {
      ChunksAligned(xs[n..], ys[n..], n);
    }
  }

  // ----- one batch -----

  function Report(command: string, name: string, log: string, child: Child): seq<Failed> {
    if child.code > 0 then [Failed(child.code, name, command, log)] else []
  }

  /** The sequential reading: the commands with a positive return code, in input order, each with its
      own name, command and log file. */
  function Failures(commands: seq<string>, names: seq<string>, logs: seq<string>, children: seq<Child>): seq<Failed>
    requires |commands| == |names| == |logs| == |children|
  {
    if commands == [] then []
    else
      Report(commands[0], names[0], logs[0], children[0])
      + Failures(commands[1..], names[1..], logs[1..], children[1..])
  }

  /** Children that still run "t" seconds after the start of their batch. */
  function Running(children: seq<Child>, t: nat): nat {
    if children == [] then 0
    else (if children[0].finish > t then 1 else 0) + Running(children[1..], t)
  }

  function Latest(children: seq<Child>): nat {
    if children == [] then 0
    else if children[0].finish > Latest(children[1..]) then children[0].finish
    else Latest(children[1..])
  }

  lemma RunningBounds(children: seq<Child>, t: nat)
    ensures Running(children, t) <= |children|
    ensures t >= Latest(children) ==> Running(children, t) == 0
  {
  }

  lemma {:induction false} FailuresAppend(c: seq<string>, n: seq<string>, l: seq<string>, p: seq<Child>,
                                          c': seq<string>, n': seq<string>, l': seq<string>, p': seq<Child>)
    requires |c| == |n| == |l| == |p| && |c'| == |n'| == |l'| == |p'|
    ensures Failures(c + c', n + n', l + l', p + p') == Failures(c, n, l, p) + Failures(c', n', l', p')
  {
    hide Report;
    if c == [] {
      assert c + c' == c' && n + n' == n' && l + l' == l' && p + p' == p';
    } else {
      FailuresAppend(c[1..], n[1..], l[1..], p[1..], c', n', l', p');
      TailOfAppend(c, c');
      TailOfAppend(n, n');
      TailOfAppend(l, l');
      TailOfAppend(p, p');
    }
  }

  lemma TailOfAppend<T>(a: seq<T>, b: seq<T>)
    requires a != []
    ensures (a + b)[1..] == a[1..] + b && (a + b)[0] == a[0]
  {
  }

  /** The failures of the batches from the i-th on; the four lists are cut alike. */
  function Remaining(c: seq<seq<string>>, n: seq<seq<string>>, l: seq<seq<string>>, p: seq<seq<Child>>, i: nat): seq<Failed>
    requires |c| == |n| == |l| == |p| && i <= |c|
    requires forall k | 0 <= k < |c| :: |c[k]| == |n[k]| == |l[k]| == |p[k]|
    decreases |c| - i
  {
    if i == |c| then [] else Failures(c[i], n[i], l[i], p[i]) + Remaining(c, n, l, p, i + 1)
  }

  lemma {:induction false} RemainingIsFailures(c: seq<seq<string>>, n: seq<seq<string>>, l: seq<seq<string>>, p: seq<seq<Child>>, i: nat)
    requires |c| == |n| == |l| == |p| && i <= |c|
    requires forall k | 0 <= k < |c| :: |c[k]| == |n[k]| == |l[k]| == |p[k]|
    ensures |Concat(c[i..])| == |Concat(n[i..])| == |Concat(l[i..])| == |Concat(p[i..])|
    ensures Remaining(c, n, l, p, i) == Failures(Concat(c[i..]), Concat(n[i..]), Concat(l[i..]), Concat(p[i..]))
    decreases |c| - i
  {
    hide Failures;
    if i == |c| {
      NoFailures();
    } else {
      RemainingIsFailures(c, n, l, p, i + 1);
      assert c[i..][1..] == c[i + 1..] && n[i..][1..] == n[i + 1..] && l[i..][1..] == l[i + 1..] && p[i..][1..] == p[i + 1..];
      FailuresAppend(c[i], n[i], l[i], p[i], Concat(c[i + 1..]), Concat(n[i + 1..]), Concat(l[i + 1..]), Concat(p[i + 1..]));
    }
  }

  /** The batches are aligned, none is too large, and together they have the failures of the whole list. */
  lemma BatchesCover(commands: seq<string>, names: seq<string>, logs: seq<string>, children: seq<Child>, batch: nat)
    requires |commands| == |names| == |logs| == |children| && batch >= 1
    ensures var c, n, l, p := Chunks(commands, batch), Chunks(names, batch), Chunks(logs, batch), Chunks(children, batch);
      && |c| == |n| == |l| == |p|
      && (forall k | 0 <= k < |c| :: |c[k]| == |n[k]| == |l[k]| == |p[k]| <= batch)
      && Remaining(c, n, l, p, 0) == Failures(commands, names, logs, children)
  {
    hide Failures; hide Chunks; hide Concat; hide Remaining;
    var c, n, l, p := Chunks(commands, batch), Chunks(names, batch), Chunks(logs, batch), Chunks(children, batch);
    ChunksAligned(commands, names, batch);
    ChunksAligned(commands, logs, batch);
    ChunksAligned(commands, children, batch);
    ChunksPartition(commands, batch);
    ChunksPartition(names, batch);
    ChunksPartition(logs, batch);
    ChunksPartition(children, batch);
    assert c[0..] == c && n[0..] == n && l[0..] == l && p[0..] == p;
    RemainingIsFailures(c, n, l, p, 0);
  }

  lemma NoFailures()
    ensures Failures([], [], [], []) == []
  {
  }

  /** The children of this program: how many are alive now, and the most that ever were at once. */
  class ProcessTable {
    var alive: nat
    var peak: nat

    constructor ()
      ensures alive == peak == 0
    {
      alive, peak := 0, 0;
    }

    method Spawn()
      modifies this
      ensures alive == old(alive) + 1
      ensures peak == if old(peak) < alive then alive else old(peak)
    {
      alive := alive + 1;
      if peak < alive {
        peak := alive;
      }
    }

    /** run_command_batch: start all, poll once a second until none runs, then collect the failures. */
    method RunCommandBatch(commands: seq<string>, names: seq<string>, logs: seq<string>, children: seq<Child>)
      returns (failures: seq<Failed>)
      requires |commands| == |names| == |logs| == |children|
      requires alive == 0
      modifies this
      ensures failures == Failures(commands, names, logs, children)
      ensures alive == 0 && peak == if old(peak) < |children| then |children| else old(peak)
    {
      for i := 0 to |children|
        invariant alive == i && peak == if old(peak) < i then i else old(peak)
      {
        Spawn();
      }
      var seconds := 0;
      while true
        invariant alive <= |children| && peak == if old(peak) < |children| then |children| else old(peak)
        decreases Latest(children) - seconds
      {
        RunningBounds(children, seconds);
        alive := Running(children, seconds);
        if alive == 0 {
          break;
        }
        seconds := seconds + 1;
      }
      failures := [];
      for i := 0 to |children|
        invariant alive == 0 && peak == if old(peak) < |children| then |children| else old(peak)
        invariant failures == Failures(commands[..i], names[..i], logs[..i], children[..i])
      {
        FailuresAppend(commands[..i], names[..i], logs[..i], children[..i],
                       [commands[i]], [names[i]], [logs[i]], [children[i]]);
        assert commands[..i + 1] == commands[..i] + [commands[i]] && names[..i + 1] == names[..i] + [names[i]];
        assert logs[..i + 1] == logs[..i] + [logs[i]] && children[..i + 1] == children[..i] + [children[i]];
        if children[i].code > 0 {
          failures := failures + [Failed(children[i].code, names[i], commands[i], logs[i])];
        }
      }
      assert commands[..|children|] == commands && names[..|children|] == names;
      assert logs[..|children|] == logs && children[..|children|] == children;
    }

    /** run_commands: one batch after the other.  That a batch starts only after the one before has
        ended is the precondition of RunCommandBatch. */
    method RunCommands(commands: seq<string>, names: seq<string>, logs: seq<string>, children: seq<Child>, batch: nat)
      returns (failures: seq<Failed>)
      requires |commands| == |names| == |logs| == |children| && batch >= 1
      requires alive == 0
      modifies this
      ensures failures == Failures(commands, names, logs, children)
      ensures alive == 0 && peak <= if old(peak) < batch then batch else old(peak)
    {
      hide Failures; hide Chunks; hide Concat;
      var c, n, l, p := Chunks(commands, batch), Chunks(names, batch), Chunks(logs, batch), Chunks(children, batch);
      BatchesCover(commands, names, logs, children, batch);
      failures := [];
      var i := 0;
      while i < |c|
        invariant 0 <= i <= |c| && alive == 0
        invariant failures + Remaining(c, n, l, p, i) == Failures(commands, names, logs, children)
        invariant peak <= if old(peak) < batch then batch else old(peak)
      {
        var found := RunCommandBatch(c[i], n[i], l[i], p[i]);
        failures := failures + found;
        i := i + 1;
      }
    }
  }

  predicate RecordAt(f: Failed, commands: seq<string>, names: seq<string>, logs: seq<string>, children: seq<Child>, i: nat)
    requires |commands| == |names| == |logs| == |children|
  {
    i < |commands| && f == Failed(children[i].code, names[i], commands[i], logs[i])
  }

  /** "at" lists, in order, the positions below "n" with a positive return code. */
  ghost predicate FailedPositions(at: seq<nat>, children: seq<Child>, n: nat)
    requires n <= |children|
  {
    && (forall i, j | 0 <= i < j < |at| :: at[i] < at[j])
    && (forall i: nat :: i in at <==> i < n && children[i].code > 0)
  }

  /** The failures name exactly the commands with a positive return code, in input order, each with
      its own name, command and log file. */
  lemma FailuresInOrder(commands: seq<string>, names: seq<string>, logs: seq<string>, children: seq<Child>)
    returns (at: seq<nat>)
    requires |commands| == |names| == |logs| == |children|
    ensures FailedPositions(at, children, |children|)
    ensures |at| == |Failures(commands, names, logs, children)|
    ensures forall k | 0 <= k < |at| ::
      RecordAt(Failures(commands, names, logs, children)[k], commands, names, logs, children, at[k])
  {
    at := FailuresOfPrefix(commands, names, logs, children, |commands|);
    assert commands[..|commands|] == commands && names[..|names|] == names;
    assert logs[..|logs|] == logs && children[..|children|] == children;
  }

  lemma {:induction false} FailuresOfPrefix(commands: seq<string>, names: seq<string>, logs: seq<string>, children: seq<Child>, n: nat)
    returns (at: seq<nat>)
    requires |commands| == |names| == |logs| == |children| && n <= |commands|
    ensures FailedPositions(at, children, n)
    ensures |at| == |Failures(commands[..n], names[..n], logs[..n], children[..n])|
    ensures forall k | 0 <= k < |at| ::
      RecordAt(Failures(commands[..n], names[..n], logs[..n], children[..n])[k], commands, names, logs, children, at[k])
  {
    hide Failures; hide RecordAt;
    NoFailures();
    at := [];
    if n > 0 {
      at := FailuresOfPrefix(commands, names, logs, children, n - 1);
      FailuresOfNext(commands, names, logs, children, n - 1);
      MorePositions(at, children, n - 1);
      if children[n - 1].code > 0 {
        at := at + [n - 1];
      }
    }
  }

  lemma MorePositions(at: seq<nat>, children: seq<Child>, n: nat)
    requires n < |children| && FailedPositions(at, children, n)
    ensures FailedPositions(if children[n].code > 0 then at + [n] else at, children, n + 1)
  {
    assert forall k | 0 <= k < |at| :: at[k] in at;
  }

  lemma FailuresOfNext(commands: seq<string>, names: seq<string>, logs: seq<string>, children: seq<Child>, n: nat)
    requires |commands| == |names| == |logs| == |children| && n < |commands|
    ensures var before := Failures(commands[..n], names[..n], logs[..n], children[..n]);
      var after := Failures(commands[..n + 1], names[..n + 1], logs[..n + 1], children[..n + 1]);
      && (children[n].code <= 0 ==> after == before)
      && (children[n].code > 0 ==> exists f :: after == before + [f] && RecordAt(f, commands, names, logs, children, n))
  {
    FailuresAppend(commands[..n], names[..n], logs[..n], children[..n],
                   [commands[n]], [names[n]], [logs[n]], [children[n]]);
    assert commands[..n + 1] == commands[..n] + [commands[n]] && names[..n + 1] == names[..n] + [names[n]];
    assert logs[..n + 1] == logs[..n] + [logs[n]] && children[..n + 1] == children[..n] + [children[n]];
    LastFailure(commands[n], names[n], logs[n], children[n]);
    hide Failures;
    assert children[n].code > 0 ==>
      RecordAt(Failed(children[n].code, names[n], commands[n], logs[n]), commands, names, logs, children, n);
  }

  lemma LastFailure(command: string, name: string, log: string, child: Child)
    ensures Failures([command], [name], [log], [child]) == Report(command, name, log, child)
  {
  }
}
