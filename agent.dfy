/**
 * One pass of the agent's polling loop: read the board, and answer every
 * entry of that snapshot that has no `Output` yet, in snapshot order. An
 * `Exit` is acknowledged and ends the agent; a `Command` is executed and its
 * standard output posted back under the same id.
 *
 * The pass is `Tick`; `Serve` is its specification on the list of pending
 * entries, and `Conforms` states declaratively what a pass must have done.
 */
module Agent {
  import opened Wrappers
  import opened Text
  import opened Seqs
  import opened Shell
  import opened Replies

  /** "Exiting...", the acknowledgement of an `Exit`; ASCII, hence a valid `String`. */
  function ExitAck(): (r: Utf8)
    ensures |r| == 10 && IsAscii(r)
  {
    var s := seq(10, i requires 0 <= i < 10 => [0x45, 0x78, 0x69, 0x74, 0x69, 0x6e, 0x67, 0x2e, 0x2e, 0x2e][i]);
    AsciiIsUtf8(s);
    s
  }

  /** What running a command gives: no process at all, or its captured stdout. */
  datatype ExecResult = SpawnFailed | Exited(stdout: seq<Byte>)

  /**
   * The processes the agent spawns: `execute(k, text)` is what the `k`-th
   * command run of the pass (counting from 0) gives for the command `text`.
   * Two runs of the same text may differ, as two spawns of one shell command do.
   */
  type Executor = (nat, Utf8) -> ExecResult

  /** The ways the agent's `main` returns an error. */
  datatype AgentError = ReadFailed | ExecFailed | StdoutNotUtf8 | AppendFailed

  /** How a pass ends: ready for the next pass, stopped by `Exit`, or stopped by an error. */
  datatype Status = Running | Terminated | Failed(error: AgentError)

  /** The messages a pass appended, in order, and how it ended. */
  datatype Pass = Pass(posted: seq<Message>, status: Status)

  /** The skip test of the pass, fixed by the snapshot read at its start. */
  function Unanswered(snapshot: seq<Message>): Message -> bool {
    (m: Message) => !Answered(snapshot, m.id)
  }

  /** The entries a pass acts on: those the snapshot does not answer, in order. */
  function Pending(snapshot: seq<Message>): (u: seq<Message>)
    ensures forall m | m in u :: m in snapshot && !Answered(snapshot, m.id)
    ensures forall k | 0 <= k < |u| :: u[k].kind != Output
  {
    var u := Filter(snapshot, Unanswered(snapshot));
    FilterSound(snapshot, Unanswered(snapshot));
    forall k | 0 <= k < |u|
      ensures u[k].kind != Output
    {
      assert Unanswered(snapshot)(u[k]) && u[k] in u;
      var j :| 0 <= j < |snapshot| && snapshot[j] == u[k];
      assert !IsResponseTo(snapshot[j], snapshot[j].id);
    }
    u
  }

  /**
   * The reply to one pending entry, or the error that stops the agent
   * instead; a command is run as the `k`-th run of the pass.
   */
  function Reply(m: Message, execute: Executor, k: nat): (r: Result<Message, AgentError>)
    requires m.kind != Output
    ensures r.Ok? ==> r.value.kind == Output && r.value.id == m.id
    ensures r.Err? ==> m.kind == Command && (r.error == ExecFailed || r.error == StdoutNotUtf8)
  {
    if m.kind == Exit then Ok(Message(Output, m.id, ExitAck()))
    else
      assert m.kind == Command;
      match execute(k, m.payload)
      case SpawnFailed => Err(ExecFailed)
      case Exited(stdout) =>
        if ValidUtf8(stdout) then Ok(Message(Output, m.id, stdout)) else Err(StdoutNotUtf8)
  }

  /** `pass` with `posted` appended in front of its messages. */
  function After(posted: seq<Message>, pass: Pass): Pass {
    Pass(posted + pass.posted, pass.status)
  }

  /**
   * The pass over the pending entries `u`, the `n`-th append of the pass
   * being the next: `appendOk(n)` says whether that append succeeds.
   */
  function Serve(u: seq<Message>, execute: Executor, appendOk: nat -> bool, n: nat): (r: Pass)
    ensures |r.posted| <= |u|
    decreases |u|
  {
    if u == [] then Pass([], Running)
    else if u[0].kind == Output then Serve(u[1..], execute, appendOk, n)
    else
      match Reply(u[0], execute, n)
      case Err(e) => Pass([], Failed(e))
      case Ok(reply) =>
        if !appendOk(n) then Pass([], Failed(AppendFailed))
        else if u[0].kind == Exit then Pass([reply], Terminated)
        else After([reply], Serve(u[1..], execute, appendOk, n + 1))
  }

  /** The `k`-th append of the pass succeeded and posted the reply to the `k`-th pending entry. */
  predicate AnswerIs(u: seq<Message>, execute: Executor, appendOk: nat -> bool, n: nat, posted: seq<Message>, k: nat)
    requires forall i | 0 <= i < |u| :: u[i].kind != Output
  {
    k < |u| && k < |posted| && appendOk(n + k) && Reply(u[k], execute, n + k) == Ok(posted[k])
  }

  /** Every append of the pass answers the pending entry in the same position. */
  predicate AnswersInOrder(u: seq<Message>, execute: Executor, appendOk: nat -> bool, n: nat, posted: seq<Message>)
    requires forall k | 0 <= k < |u| :: u[k].kind != Output
  {
    |posted| <= |u|
    && forall k: nat | k < |posted| :: AnswerIs(u, execute, appendOk, n, posted, k)
  }

  /** The first `j` pending entries are commands. */
  predicate CommandsBefore(u: seq<Message>, j: nat) {
    j <= |u| && forall k | 0 <= k < j :: u[k].kind == Command
  }

  /**
   * How a pass that answered the first `j` pending entries may end: a pass
   * that runs to the end answered all of them; one that terminates did so on
   * an `Exit`; one that fails did so on the entry after the last answered
   * one, with no reply posted for it.
   */
  predicate EndsAs(u: seq<Message>, execute: Executor, appendOk: nat -> bool, n: nat, j: nat, status: Status)
    requires forall k | 0 <= k < |u| :: u[k].kind != Output
  {
    match status
    case Running => j == |u|
    case Terminated => 0 < j <= |u| && u[j - 1].kind == Exit
    case Failed(e) =>
      j < |u|
      && (Reply(u[j], execute, n + j) == Err(e)
          || (Reply(u[j], execute, n + j).Ok? && !appendOk(n + j) && e == AppendFailed))
  }

  /**
   * What the pass over `u` promises: its appends answer the pending entries
   * in order, every entry answered before an `Exit` is a command, and it ends
   * as `EndsAs` says.
   */
  predicate Conforms(u: seq<Message>, execute: Executor, appendOk: nat -> bool, n: nat, pass: Pass)
    requires forall k | 0 <= k < |u| :: u[k].kind != Output
  {
    var j := |pass.posted|;
    AnswersInOrder(u, execute, appendOk, n, pass.posted)
    && CommandsBefore(u, if pass.status.Terminated? && 0 < j then j - 1 else j)
    && EndsAs(u, execute, appendOk, n, j, pass.status)
  }

  /** The pass meets its promises. */
  lemma {:induction false} ServeConforms(u: seq<Message>, execute: Executor, appendOk: nat -> bool, n: nat)
    requires forall k | 0 <= k < |u| :: u[k].kind != Output
    ensures Conforms(u, execute, appendOk, n, Serve(u, execute, appendOk, n))
    decreases |u|
  {
    if u != [] && Reply(u[0], execute, n).Ok? && appendOk(n) && u[0].kind == Command {
      var rest := Serve(u[1..], execute, appendOk, n + 1);
      ServeConforms(u[1..], execute, appendOk, n + 1);
      ServeAtCommand(u, execute, appendOk, n);
      StepAnswers(u, execute, appendOk, n, Reply(u[0], execute, n).value, rest);
      StepCommands(u, rest.posted, rest.status);
      StepEnds(u, execute, appendOk, n, |rest.posted|, rest.status);
    } else {
      ServeStops(u, execute, appendOk, n);
    }
  }

  /** A pass that stops at its first pending entry, or has none, meets its promises. */
  lemma ServeStops(u: seq<Message>, execute: Executor, appendOk: nat -> bool, n: nat)
    requires forall k | 0 <= k < |u| :: u[k].kind != Output
    requires u != [] ==> Reply(u[0], execute, n).Err? || !appendOk(n) || u[0].kind == Exit
    ensures Conforms(u, execute, appendOk, n, Serve(u, execute, appendOk, n))
  {
    if u == [] {
      assert Serve(u, execute, appendOk, n) == Pass([], Running);
    } else if Reply(u[0], execute, n).Err? || !appendOk(n) {
      ServeFailsFirst(u, execute, appendOk, n);
    } else {
      ServeExitsFirst(u, execute, appendOk, n);
    }
  }

  /** A pass whose first reply cannot be made or posted posts nothing and fails there. */
  lemma ServeFailsFirst(u: seq<Message>, execute: Executor, appendOk: nat -> bool, n: nat)
    requires forall k | 0 <= k < |u| :: u[k].kind != Output
    requires u != [] && (Reply(u[0], execute, n).Err? || !appendOk(n))
    ensures Conforms(u, execute, appendOk, n, Serve(u, execute, appendOk, n))
  {
    var e := if Reply(u[0], execute, n).Err? then Reply(u[0], execute, n).error else AppendFailed;
    assert Serve(u, execute, appendOk, n) == Pass([], Failed(e));
    assert EndsAs(u, execute, appendOk, n, 0, Failed(e));
  }

  /** A pass whose first pending entry is an `Exit` it can acknowledge stops there. */
  lemma ServeExitsFirst(u: seq<Message>, execute: Executor, appendOk: nat -> bool, n: nat)
    requires forall k | 0 <= k < |u| :: u[k].kind != Output
    requires u != [] && appendOk(n) && u[0].kind == Exit
    ensures Conforms(u, execute, appendOk, n, Serve(u, execute, appendOk, n))
  {
    ServeAtExit(u, execute, appendOk, n);
    var reply := Reply(u[0], execute, n).value;
    assert AnswerIs(u, execute, appendOk, n, [reply], 0);
    forall k: nat | k < 1
      ensures AnswerIs(u, execute, appendOk, n, [reply], k)
    {
      assert k == 0;
    }
    assert EndsAs(u, execute, appendOk, n, 1, Terminated);
  }

  /** The `k`-th of a run of answers in order. */
  lemma AnswerAt(u: seq<Message>, execute: Executor, appendOk: nat -> bool, n: nat, posted: seq<Message>, k: nat)
    requires forall i | 0 <= i < |u| :: u[i].kind != Output
    requires AnswersInOrder(u, execute, appendOk, n, posted) && k < |posted|
    ensures k < |u| && appendOk(n + k) && Reply(u[k], execute, n + k) == Ok(posted[k])
  {
    assert AnswerIs(u, execute, appendOk, n, posted, k);
  }

  /** An answered command followed by answers in order is answers in order. */
  lemma StepAnswers(u: seq<Message>, execute: Executor, appendOk: nat -> bool, n: nat, reply: Message, rest: Pass)
    requires forall k | 0 <= k < |u| :: u[k].kind != Output
    requires u != [] && appendOk(n) && Reply(u[0], execute, n) == Ok(reply)
    requires AnswersInOrder(u[1..], execute, appendOk, n + 1, rest.posted)
    ensures AnswersInOrder(u, execute, appendOk, n, [reply] + rest.posted)
  {
    var posted := [reply] + rest.posted;
    forall k: nat | k < |posted|
      ensures AnswerIs(u, execute, appendOk, n, posted, k)
    {
      if k > 0 {
        AnswerAt(u[1..], execute, appendOk, n + 1, rest.posted, k - 1);
        assert u[1..][k - 1] == u[k] && rest.posted[k - 1] == posted[k];
        assert n + 1 + (k - 1) == n + k;
      }
    }
  }

  /** A leading command extends the commands before the end of the rest of the pass. */
  lemma StepCommands(u: seq<Message>, posted: seq<Message>, status: Status)
    requires u != [] && u[0].kind == Command
    requires CommandsBefore(u[1..], if status.Terminated? && 0 < |posted| then |posted| - 1 else |posted|)
    requires status.Terminated? ==> 0 < |posted|
    ensures CommandsBefore(u, if status.Terminated? then |posted| else |posted| + 1)
  {
    var j := if status.Terminated? then |posted| else |posted| + 1;
    forall k | 0 < k < j
      ensures u[k].kind == Command
    {
      assert u[1..][k - 1] == u[k];
    }
  }

  /** The end of the rest of the pass, shifted by one answered entry. */
  lemma StepEnds(u: seq<Message>, execute: Executor, appendOk: nat -> bool, n: nat, j: nat, status: Status)
    requires forall k | 0 <= k < |u| :: u[k].kind != Output
    requires u != []
    requires EndsAs(u[1..], execute, appendOk, n + 1, j, status)
    ensures EndsAs(u, execute, appendOk, n, j + 1, status)
  {
    match status
    case Running =>
    case Terminated =>
      assert u[1..][j - 1] == u[j];
    case Failed(e) =>
      assert u[1..][j] == u[j + 1];
      assert n + 1 + j == n + (j + 1);
  }

  /** The promises pin the pass down: nothing else meets them. */
  lemma {:induction false} ConformsUnique(u: seq<Message>, execute: Executor, appendOk: nat -> bool, n: nat, pass: Pass)
    requires forall k | 0 <= k < |u| :: u[k].kind != Output
    requires Conforms(u, execute, appendOk, n, pass)
    ensures pass == Serve(u, execute, appendOk, n)
    decreases |u|
  {
    var j := |pass.posted|;
    if j == 0 {
      NothingPosted(u, execute, appendOk, n, pass);
    } else if pass.status.Terminated? && j == 1 {
      ExitOnly(u, execute, appendOk, n, pass);
    } else {
      var tail := Pass(pass.posted[1..], pass.status);
      ConformsTail(u, execute, appendOk, n, pass);
      ConformsUnique(u[1..], execute, appendOk, n + 1, tail);
      ServeAtCommand(u, execute, appendOk, n);
      assert pass.posted == [pass.posted[0]] + tail.posted;
    }
  }

  /** At a leading command whose reply can be made and posted, the pass posts it and goes on. */
  lemma ServeAtCommand(u: seq<Message>, execute: Executor, appendOk: nat -> bool, n: nat)
    requires forall k | 0 <= k < |u| :: u[k].kind != Output
    requires u != [] && u[0].kind == Command && appendOk(n) && Reply(u[0], execute, n).Ok?
    ensures Serve(u, execute, appendOk, n) == After([Reply(u[0], execute, n).value], Serve(u[1..], execute, appendOk, n + 1))
  {
  }

  /** A conforming pass that posted nothing is the pass that stopped at once. */
  lemma NothingPosted(u: seq<Message>, execute: Executor, appendOk: nat -> bool, n: nat, pass: Pass)
    requires forall k | 0 <= k < |u| :: u[k].kind != Output
    requires Conforms(u, execute, appendOk, n, pass) && pass.posted == []
    ensures pass == Serve(u, execute, appendOk, n)
  {
    assert EndsAs(u, execute, appendOk, n, 0, pass.status);
    assert pass.status.Running? ==> u == [];
  }

  /** A conforming pass that posted one reply and terminated is the pass that acknowledged a leading `Exit`. */
  lemma ExitOnly(u: seq<Message>, execute: Executor, appendOk: nat -> bool, n: nat, pass: Pass)
    requires forall k | 0 <= k < |u| :: u[k].kind != Output
    requires Conforms(u, execute, appendOk, n, pass) && pass.status.Terminated? && |pass.posted| == 1
    ensures pass == Serve(u, execute, appendOk, n)
  {
    assert EndsAs(u, execute, appendOk, n, 1, pass.status);
    AnswerAt(u, execute, appendOk, n, pass.posted, 0);
    ExitPosted(u, execute, appendOk, n, pass);
  }

  /** A pass that posted one reply to a leading `Exit` and terminated is the pass that acknowledged it. */
  lemma ExitPosted(u: seq<Message>, execute: Executor, appendOk: nat -> bool, n: nat, pass: Pass)
    requires forall k | 0 <= k < |u| :: u[k].kind != Output
    requires u != [] && u[0].kind == Exit && AnswerIs(u, execute, appendOk, n, pass.posted, 0)
    requires |pass.posted| == 1 && pass.status.Terminated?
    ensures pass == Serve(u, execute, appendOk, n)
  {
    assert appendOk(n + 0) && Reply(u[0], execute, n) == Ok(pass.posted[0]);
    ServeAtExit(u, execute, appendOk, n);
    assert pass.posted == [pass.posted[0]];
  }

  /** At a leading `Exit` whose acknowledgement can be posted, the pass posts it and terminates. */
  lemma ServeAtExit(u: seq<Message>, execute: Executor, appendOk: nat -> bool, n: nat)
    requires forall k | 0 <= k < |u| :: u[k].kind != Output
    requires u != [] && appendOk(n) && u[0].kind == Exit
    ensures Reply(u[0], execute, n).Ok?
    ensures Serve(u, execute, appendOk, n) == Pass([Reply(u[0], execute, n).value], Terminated)
  {
  }

  /** A conforming pass that goes on past its first entry answered a command there, and conforms from there on. */
  lemma ConformsTail(u: seq<Message>, execute: Executor, appendOk: nat -> bool, n: nat, pass: Pass)
    requires forall k | 0 <= k < |u| :: u[k].kind != Output
    requires Conforms(u, execute, appendOk, n, pass)
    requires 0 < |pass.posted| && !(pass.status.Terminated? && |pass.posted| == 1)
    ensures u[0].kind == Command && appendOk(n) && Reply(u[0], execute, n) == Ok(pass.posted[0])
    ensures forall k | 0 <= k < |u[1..]| :: u[1..][k].kind != Output
    ensures Conforms(u[1..], execute, appendOk, n + 1, Pass(pass.posted[1..], pass.status))
  {
    var j := |pass.posted|;
    assert CommandsBefore(u, if pass.status.Terminated? && 0 < j then j - 1 else j);
    assert EndsAs(u, execute, appendOk, n, j, pass.status);
    assert u[0].kind == Command;
    AnswerAt(u, execute, appendOk, n, pass.posted, 0);
    var tail := Pass(pass.posted[1..], pass.status);
    AnswersTail(u, execute, appendOk, n, pass.posted);
    assert CommandsBefore(u[1..], if tail.status.Terminated? && 0 < j - 1 then j - 2 else j - 1) by {
      forall k | 0 <= k < (if tail.status.Terminated? && 0 < j - 1 then j - 2 else j - 1)
        ensures u[1..][k].kind == Command
      {
        assert u[k + 1].kind == Command;
      }
    }
    EndsTail(u, execute, appendOk, n, j, pass.status);
  }

  /** Answers in order, less the first, answer the rest of the entries in order. */
  lemma AnswersTail(u: seq<Message>, execute: Executor, appendOk: nat -> bool, n: nat, posted: seq<Message>)
    requires forall k | 0 <= k < |u| :: u[k].kind != Output
    requires AnswersInOrder(u, execute, appendOk, n, posted) && 0 < |posted|
    ensures forall k | 0 <= k < |u[1..]| :: u[1..][k].kind != Output
    ensures AnswersInOrder(u[1..], execute, appendOk, n + 1, posted[1..])
  {
    var v, m, rest := u[1..], n + 1, posted[1..];
    forall k: nat | k < |rest|
      ensures AnswerIs(v, execute, appendOk, m, rest, k)
    {
      AnswerAt(u, execute, appendOk, n, posted, k + 1);
      assert u[1..][k] == u[k + 1] && posted[1..][k] == posted[k + 1] && n + 1 + k == n + (k + 1);
    }
  }

  /** How a pass ends, seen from its second entry on. */
  lemma EndsTail(u: seq<Message>, execute: Executor, appendOk: nat -> bool, n: nat, j: nat, status: Status)
    requires forall k | 0 <= k < |u| :: u[k].kind != Output
    requires u != [] && 0 < j && EndsAs(u, execute, appendOk, n, j, status)
    requires !(status.Terminated? && j == 1)
    ensures forall k | 0 <= k < |u[1..]| :: u[1..][k].kind != Output
    ensures EndsAs(u[1..], execute, appendOk, n + 1, j - 1, status)
  {
    match status
    case Running =>
    case Terminated =>
      assert u[1..][j - 2] == u[j - 1];
    case Failed(e) =>
      assert u[1..][j - 1] == u[j];
      assert n + 1 + (j - 1) == n + j;
  }

  /**
   * What each post of a pass is: the `k`-th post answers the `k`-th pending
   * entry under its id, with the stdout of the command, or with the
   * acknowledgement of the `Exit` that then ends the pass.
   */
  lemma PassEffects(u: seq<Message>, execute: Executor, appendOk: nat -> bool, n: nat, k: nat)
    requires forall i | 0 <= i < |u| :: u[i].kind != Output
    requires k < |Serve(u, execute, appendOk, n).posted|
    ensures var posted := Serve(u, execute, appendOk, n).posted;
      posted[k].kind == Output && posted[k].id == u[k].id
      && (u[k].kind == Command ==> execute(n + k, u[k].payload) == Exited(posted[k].payload))
      && (u[k].kind == Exit ==> posted[k].payload == ExitAck())
  {
    ServeConforms(u, execute, appendOk, n);
    AnswerAt(u, execute, appendOk, n, Serve(u, execute, appendOk, n).posted, k);
  }

  /** A pass that terminates posted the acknowledgement of an `Exit` last, and only commands' replies before it. */
  lemma ExitEnds(u: seq<Message>, execute: Executor, appendOk: nat -> bool, n: nat)
    requires forall i | 0 <= i < |u| :: u[i].kind != Output
    requires Serve(u, execute, appendOk, n).status == Terminated
    ensures var posted := Serve(u, execute, appendOk, n).posted;
      0 < |posted| && u[|posted| - 1].kind == Exit
      && posted[|posted| - 1] == Message(Output, u[|posted| - 1].id, ExitAck())
      && forall i | 0 <= i < |posted| - 1 :: u[i].kind == Command
  {
    var pass := Serve(u, execute, appendOk, n);
    ServeConforms(u, execute, appendOk, n);
    assert EndsAs(u, execute, appendOk, n, |pass.posted|, pass.status);
    assert CommandsBefore(u, |pass.posted| - 1);
    AnswerAt(u, execute, appendOk, n, pass.posted, |pass.posted| - 1);
  }

  /** A pass whose every entry is a command that is answered and posted neither stops early nor fails. */
  lemma RunsToEnd(u: seq<Message>, execute: Executor, appendOk: nat -> bool, j: nat, status: Status)
    requires forall i | 0 <= i < |u| :: u[i].kind == Command
    requires forall i | 0 <= i < |u| :: u[i].kind != Output
    requires forall i | 0 <= i < |u| :: Reply(u[i], execute, 0 + i).Ok? && appendOk(0 + i)
    requires EndsAs(u, execute, appendOk, 0, j, status)
    ensures status == Running && j == |u|
  {
  }

  /**
   * When every pending entry is a command that runs, prints UTF-8 and whose
   * reply is posted, the pass answers all of them, one append each, in order,
   * each under its command's id with that command's stdout, and keeps running.
   */
  lemma AnswersEveryCommand(msgs: seq<Message>, execute: Executor, appendOk: nat -> bool)
    requires forall m | m in Pending(msgs) :: m.kind == Command
    requires forall k | 0 <= k < |Pending(msgs)| ::
      execute(k, Pending(msgs)[k].payload).Exited? && ValidUtf8(execute(k, Pending(msgs)[k].payload).stdout)
    requires forall k: nat | k < |Pending(msgs)| :: appendOk(k)
    ensures var pass := Scan(msgs, 0, execute, appendOk, 0);
      pass.status == Running && |pass.posted| == |Pending(msgs)|
      && forall k | 0 <= k < |pass.posted| ::
           pass.posted[k] == Message(Output, Pending(msgs)[k].id, execute(k, Pending(msgs)[k].payload).stdout)
  {
    var u := Pending(msgs);
    PassIsServe(msgs, execute, appendOk);
    ServeConforms(u, execute, appendOk, 0);
    var pass := Serve(u, execute, appendOk, 0);
    var j := |pass.posted|;
    forall i | 0 <= i < |u|
      ensures u[i].kind == Command && Reply(u[i], execute, 0 + i) == Ok(Message(Output, u[i].id, execute(i, u[i].payload).stdout))
      ensures appendOk(0 + i)
    {
      assert u[i] in u;
    }
    RunsToEnd(u, execute, appendOk, j, pass.status);
    forall k | 0 <= k < j
      ensures pass.posted[k] == Message(Output, u[k].id, execute(k, u[k].payload).stdout)
    {
      AnswerAt(u, execute, appendOk, 0, pass.posted, k);
    }
  }

  /**
   * Every message a pass over a snapshot appends is an `Output` under the id
   * of an entry of that snapshot which is a `Command` or an `Exit` and which
   * the snapshot does not answer.
   */
  lemma AppendsAnswerUnanswered(msgs: seq<Message>, execute: Executor, appendOk: nat -> bool, m: Message)
    requires m in Scan(msgs, 0, execute, appendOk, 0).posted
    ensures m.kind == Output
    ensures exists e | e in msgs :: e.id == m.id && e.kind != Output && !Answered(msgs, e.id)
  {
    PassIsServe(msgs, execute, appendOk);
    var u := Pending(msgs);
    var posted := Serve(u, execute, appendOk, 0).posted;
    var k :| 0 <= k < |posted| && posted[k] == m;
    PassEffects(u, execute, appendOk, 0, k);
    assert u[k] in u;
  }

  /**
   * The entries a pass acts on are the snapshot's unanswered ones, each as
   * often as it occurs there: duplicates of an unanswered command are all
   * answered, since the skip test only sees the snapshot and not the pass's
   * own appends.
   */
  lemma PendingCount(snapshot: seq<Message>, m: Message)
    ensures multiset(Pending(snapshot))[m] == if Answered(snapshot, m.id) then 0 else multiset(snapshot)[m]
    ensures m in Pending(snapshot) <==> m in snapshot && !Answered(snapshot, m.id)
  {
    FilterCount(snapshot, Unanswered(snapshot), m);
  }

  /** The filtered suffix from `i` decides `msgs[i]` first. */
  lemma FilterFrom(msgs: seq<Message>, i: nat, p: Message -> bool)
    requires i < |msgs|
    ensures Filter(msgs[i..], p) == (if p(msgs[i]) then [msgs[i]] else []) + Filter(msgs[i + 1..], p)
  {
    assert msgs[i..] == [msgs[i]] + msgs[i + 1..];
    FilterCons(msgs[i], msgs[i + 1..], p);
  }

  /** Prepending in two steps is prepending once. */
  lemma AfterAfter(a: seq<Message>, b: seq<Message>, pass: Pass)
    ensures After(a, After(b, pass)) == After(a + b, pass)
  {
    assert a + (b + pass.posted) == (a + b) + pass.posted;
  }

  /**
   * The pass read directly off the snapshot, from entry `i` on with `n`
   * appends made: answered entries are passed over (every `Output` is one),
   * any other entry is replied to as in `Serve`.
   */
  function Scan(msgs: seq<Message>, i: nat, execute: Executor, appendOk: nat -> bool, n: nat): (r: Pass)
    requires i <= |msgs|
    ensures |r.posted| <= |msgs| - i
    ensures r.status.Terminated? ==> r.posted != []
    decreases |msgs| - i
  {
    if i == |msgs| then Pass([], Running)
    else if Answered(msgs, msgs[i].id) || msgs[i].kind == Output then Scan(msgs, i + 1, execute, appendOk, n)
    else
      match Reply(msgs[i], execute, n)
      case Err(e) => Pass([], Failed(e))
      case Ok(reply) =>
        if !appendOk(n) then Pass([], Failed(AppendFailed))
        else if msgs[i].kind == Exit then Pass([reply], Terminated)
        else After([reply], Scan(msgs, i + 1, execute, appendOk, n + 1))
  }

  /** Reading the pass off the snapshot is serving its pending entries. */
  lemma {:induction false} ScanIsServe(msgs: seq<Message>, i: nat, execute: Executor, appendOk: nat -> bool, n: nat)
    requires i <= |msgs|
    ensures Scan(msgs, i, execute, appendOk, n) == Serve(Filter(msgs[i..], Unanswered(msgs)), execute, appendOk, n)
    decreases |msgs| - i
  {
    if i == |msgs| {
      assert msgs[i..] == [];
    } else {
      var p := Unanswered(msgs);
      var rest := Filter(msgs[i + 1..], p);
      FilterFrom(msgs, i, p);
      ScanIsServe(msgs, i + 1, execute, appendOk, n);
      ScanIsServe(msgs, i + 1, execute, appendOk, n + 1);
      if msgs[i].kind == Output {
        assert IsResponseTo(msgs[i], msgs[i].id);
      }
      if p(msgs[i]) {
        var u := [msgs[i]] + rest;
        assert u[0] == msgs[i] && u[1..] == rest;
      } else {
        assert [] + rest == rest;
      }
    }
  }

  /** The whole pass over a snapshot is the pass over its pending entries. */
  lemma PassIsServe(msgs: seq<Message>, execute: Executor, appendOk: nat -> bool)
    ensures Scan(msgs, 0, execute, appendOk, 0) == Serve(Pending(msgs), execute, appendOk, 0)
  {
    ScanIsServe(msgs, 0, execute, appendOk, 0);
    assert msgs[0..] == msgs;
  }

  /**
   * Runs a command as the `k`-th run of the pass and builds its reply: the
   * `Output` with the command's id and the captured stdout, which must be UTF-8.
   */
  method RunCommand(m: Message, execute: Executor, k: nat) returns (r: Result<Message, AgentError>)
    requires m.kind == Command
    ensures r == Reply(m, execute, k)
  {
    var output := execute(k, m.payload);
    if output.SpawnFailed? {
      return Err(ExecFailed);
    }
    if !ValidUtf8(output.stdout) {
      return Err(StdoutNotUtf8);
    }
    return Ok(Message(Output, m.id, output.stdout));
  }

  /**
   * The body of the pass's `for` loop, on entry `i` of the snapshot with `n`
   * appends made so far: passes over an answered entry, acknowledges an
   * `Exit` and stops, or runs a `Command` and posts its output. Returns what
   * it appended and, when the pass ends here, how.
   */
  method Handle(msgs: seq<Message>, i: nat, execute: Executor, appendOk: nat -> bool, n: nat)
    returns (appended: seq<Message>, stop: Option<Status>)
    requires i < |msgs|
    ensures stop.Some? ==> Scan(msgs, i, execute, appendOk, n) == Pass(appended, stop.value)
    ensures stop.None?
        ==> Scan(msgs, i, execute, appendOk, n) == After(appended, Scan(msgs, i + 1, execute, appendOk, n + |appended|))
  {
    var msg := msgs[i];
    if Answered(msgs, msg.id) {
      assert [] + Scan(msgs, i + 1, execute, appendOk, n).posted == Scan(msgs, i + 1, execute, appendOk, n).posted;
      return [], None;
    }
    if msg.kind == Exit {
      var reply := Message(Output, msg.id, ExitAck());
      if !appendOk(n) {
        return [], Some(Failed(AppendFailed));
      }
      return [reply], Some(Terminated);
    }
    if msg.kind == Command {
      var reply := RunCommand(msg, execute, n);
      if reply.Err? {
        return [], Some(Failed(reply.error));
      }
      if !appendOk(n) {
        return [], Some(Failed(AppendFailed));
      }
      return [reply.value], None;
    }
    return [], None;
  }

  /** The loop invariant of `AnswerAll` carried past an entry that does not end the pass. */
  lemma ScanAdvance(msgs: seq<Message>, i: nat, execute: Executor, appendOk: nat -> bool, whole: Pass,
                    posted: seq<Message>, appended: seq<Message>)
    requires i < |msgs|
    requires whole == After(posted, Scan(msgs, i, execute, appendOk, |posted|))
    requires Scan(msgs, i, execute, appendOk, |posted|)
          == After(appended, Scan(msgs, i + 1, execute, appendOk, |posted| + |appended|))
    ensures whole == After(posted + appended, Scan(msgs, i + 1, execute, appendOk, |posted + appended|))
  {
    AfterAfter(posted, appended, Scan(msgs, i + 1, execute, appendOk, |posted| + |appended|));
  }

  /**
   * The agent's `for` loop over one snapshot `msgs`: `execute(k, _)` runs
   * the k-th command of the pass and `appendOk(k)` says whether the k-th
   * append of the pass succeeds. Returns the messages appended and how the pass ended.
   */
  method AnswerAll(msgs: seq<Message>, execute: Executor, appendOk: nat -> bool)
    returns (posted: seq<Message>, status: Status)
    ensures Pass(posted, status) == Scan(msgs, 0, execute, appendOk, 0)
  {
    ghost var whole := Scan(msgs, 0, execute, appendOk, 0);
    posted := [];
    assert whole == After(posted, whole);
    for i := 0 to |msgs|
      invariant whole == After(posted, Scan(msgs, i, execute, appendOk, |posted|))
    {
      var appended, stop := Handle(msgs, i, execute, appendOk, |posted|);
      if stop.Some? {
        AfterAfter(posted, appended, Pass([], stop.value));
        assert appended + [] == appended;
        return posted + appended, stop.value;
      }
      ghost var rest := Scan(msgs, i + 1, execute, appendOk, |posted| + |appended|);
      assert Scan(msgs, i, execute, appendOk, |posted|) == After(appended, rest);
      ScanAdvance(msgs, i, execute, appendOk, whole, posted, appended);
      posted := posted + appended;
    }
    assert Scan(msgs, |msgs|, execute, appendOk, |posted|) == Pass([], Running);
    assert posted + [] == posted;
    status := Running;
  }

  /**
   * One pass of the agent's `'outer` loop: `read` is what reading the
   * board's comments returned; the pass answers the messages that parse.
   */
  method Tick(read: ReadResult, execute: Executor, appendOk: nat -> bool)
    returns (posted: seq<Message>, status: Status)
    ensures read.Err? ==> posted == [] && status == Failed(ReadFailed)
    ensures read.Ok? ==> Pass(posted, status) == Scan(Parsed(read.value), 0, execute, appendOk, 0)
  {
    var r := ReadAllMessages(read);
    if r.Err? {
      return [], Failed(ReadFailed);
    }
    posted, status := AnswerAll(r.value, execute, appendOk);
  }
}
