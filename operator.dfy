/**
 * The operator's menu arms: list every command with its output, submit a
 * command and poll for its reply, clear the board once confirmed, and tell
 * the agent to exit.
 *
 * The board is reached through a transport: each arm returns the calls it
 * made on it, in order (`Call`), and takes what those calls return as
 * parameters (a read's result, whether a post or the clear succeeded).
 */
module Operator {
  import opened Wrappers
  import opened Text
  import opened Seqs
  import opened Shell
  import opened Replies

  /** The number of reads a submission waits for a reply. */
  const MaxAttempts: nat := 60

  /** The pause after each read that finds no reply, in seconds. */
  const PollIntervalSecs: nat := 5

  /** One call on the board's transport. */
  datatype Call = Post(comment: Utf8) | ReadBoard | Sleep(seconds: nat) | ClearBoard

  /** Why an arm aborts the operator: a post, a read or the clear failed. */
  datatype OperatorError = PostFailed | ReadFailed | ClearFailed

  // ---------------------------------------------------------------------------
  // Listing

  /** "<no output (yet?)>", shown for a command nobody has replied to. */
  function NoOutput(): seq<Byte> {
    [0x3c, 0x6e, 0x6f, 0x20, 0x6f, 0x75, 0x74, 0x70, 0x75] + [0x74, 0x20, 0x28, 0x79, 0x65, 0x74, 0x3f, 0x29, 0x3e]
  }

  /** One printed line: the output of a command, then the command. */
  datatype Line = Line(output: seq<Byte>, command: Utf8)

  predicate IsCommand(m: Message) {
    m.kind == Command
  }

  /** The line of a command: the payload of the first `Output` with its id, or the sentinel. */
  function Row(msgs: seq<Message>, cmd: Message): (line: Line)
    ensures line.command == cmd.payload
    ensures !Answered(msgs, cmd.id) ==> line.output == NoOutput()
    ensures Answered(msgs, cmd.id) ==> exists m | m in msgs :: IsResponseTo(m, cmd.id) && m.payload == line.output
  {
    match ResponsePayload(msgs, cmd.id)
    case Some(payload) => Line(payload, cmd.payload)
    case None => Line(NoOutput(), cmd.payload)
  }

  /** The lines of the commands `cmds`, looked up in `msgs`. */
  function Rows(msgs: seq<Message>, cmds: seq<Message>): (lines: seq<Line>)
    ensures |lines| == |cmds|
    ensures forall k | 0 <= k < |cmds| :: lines[k] == Row(msgs, cmds[k])
    decreases |cmds|
  {
    if cmds == [] then [] else [Row(msgs, cmds[0])] + Rows(msgs, cmds[1..])
  }

  /** What the listing shows for a snapshot: one line per command, in snapshot order. */
  function Listing(msgs: seq<Message>): (lines: seq<Line>)
    ensures |lines| <= |msgs|
    ensures forall k | 0 <= k < |lines| :: exists m | m in msgs :: m.kind == Command && m.payload == lines[k].command
  {
    var cmds := Filter(msgs, IsCommand);
    FilterSound(msgs, IsCommand);
    assert forall k | 0 <= k < |cmds| :: Rows(msgs, cmds)[k].command == cmds[k].payload;
    Rows(msgs, cmds)
  }

  /** The lines of two runs of commands are the lines of each, one after the other. */
  lemma RowsAppend(msgs: seq<Message>, c1: seq<Message>, c2: seq<Message>)
    ensures Rows(msgs, c1 + c2) == Rows(msgs, c1) + Rows(msgs, c2)
  {
  }

  /** One more command, one more line at the end. */
  lemma RowsSnoc(msgs: seq<Message>, cmds: seq<Message>, cmd: Message)
    ensures Rows(msgs, cmds + [cmd]) == Rows(msgs, cmds) + [Row(msgs, cmd)]
  {
    RowsAppend(msgs, cmds, [cmd]);
    assert Rows(msgs, [cmd]) == [Row(msgs, cmd)];
  }

  /** The line printed for the command `cmd`: its first reply's payload, or the sentinel. */
  method PrintLine(msgs: seq<Message>, cmd: Message) returns (line: Line)
    ensures line == Row(msgs, cmd)
  {
    var output := NoOutput();
    var response := ResponsePayload(msgs, cmd.id);
    if response.Some? {
      output := response.value;
    }
    line := Line(output, cmd.payload);
  }

  /**
   * The listing arm: reads the board, then prints a line for each command
   * of the snapshot. A failed read aborts the operator.
   */
  method List(read: ReadResult) returns (calls: seq<Call>, result: Result<seq<Line>, OperatorError>)
    ensures calls == [ReadBoard]
    ensures read.Err? ==> result == Err(ReadFailed)
    ensures read.Ok? ==> result == Ok(Listing(Parsed(read.value)))
  {
    calls := [ReadBoard];
    var r := ReadAllMessages(read);
    if r.Err? {
      return calls, Err(ReadFailed);
    }
    var lines := PrintLines(r.value);
    return calls, Ok(lines);
  }

  /** The listing's loop: a line for each command of `msgs`, in order. */
  method PrintLines(msgs: seq<Message>) returns (lines: seq<Line>)
    ensures lines == Listing(msgs)
  {
    lines := [];
    for i := 0 to |msgs|
      invariant lines == Rows(msgs, Filter(msgs[..i], IsCommand))
    {
      FilterPrefix(msgs, i, IsCommand);
      if msgs[i].kind == Command {
        var line := PrintLine(msgs, msgs[i]);
        RowsSnoc(msgs, Filter(msgs[..i], IsCommand), msgs[i]);
        lines := lines + [line];
      }
    }
    assert msgs[..|msgs|] == msgs;
  }

  /**
   * Line `k` of the listing belongs to a command of the snapshot and shows
   * the payload of the first `Output` carrying that command's id, or the
   * sentinel when there is none.
   */
  lemma ListingShows(msgs: seq<Message>, k: nat)
    requires k < |Listing(msgs)|
    ensures var cmd := Filter(msgs, IsCommand)[k];
      cmd in msgs && cmd.kind == Command && Listing(msgs)[k].command == cmd.payload
      && (!Answered(msgs, cmd.id) ==> Listing(msgs)[k].output == NoOutput())
      && (Answered(msgs, cmd.id) ==>
            var first := FirstResponse(msgs, cmd.id).value;
            Listing(msgs)[k].output == msgs[first].payload && IsResponseTo(msgs[first], cmd.id)
            && forall i | 0 <= i < first :: !IsResponseTo(msgs[i], cmd.id))
  {
    FilterSound(msgs, IsCommand);
  }

  /**
   * Each command of the snapshot has exactly as many lines as it has
   * occurrences, each the line of that command; nothing else has one.
   */
  lemma ListingCounts(msgs: seq<Message>, m: Message)
    ensures |Listing(msgs)| == |Filter(msgs, IsCommand)|
    ensures forall k | 0 <= k < |Listing(msgs)| :: Listing(msgs)[k] == Row(msgs, Filter(msgs, IsCommand)[k])
    ensures multiset(Filter(msgs, IsCommand))[m] == if m.kind == Command then multiset(msgs)[m] else 0
  {
    FilterCount(msgs, IsCommand, m);
  }

  /**
   * The listing keeps the order of the snapshot: the lines of the commands
   * of a prefix come first, then those of the rest, all looked up in the
   * whole snapshot.
   */
  lemma ListingOrder(a: seq<Message>, b: seq<Message>)
    ensures Listing(a + b) == Rows(a + b, Filter(a, IsCommand)) + Rows(a + b, Filter(b, IsCommand))
  {
    FilterAppend(a, b, IsCommand);
    RowsAppend(a + b, Filter(a, IsCommand), Filter(b, IsCommand));
  }

  /**
   * Once a command's line shows an output, any later snapshot that extends
   * this one shows the same output for it: the first reply wins.
   */
  lemma RowStable(msgs: seq<Message>, later: seq<Message>, cmd: Message)
    requires Answered(msgs, cmd.id)
    ensures Row(msgs + later, cmd) == Row(msgs, cmd)
  {
    FirstResponseStable(msgs, later, cmd.id);
  }

  // ---------------------------------------------------------------------------
  // Submitting a command

  /** What a wait for a reply ends with, short of an error. */
  datatype Outcome = Responded(payload: Utf8) | TimedOut

  /** The calls a wait made and how it ended. */
  datatype Poll = Poll(calls: seq<Call>, result: Result<Outcome, OperatorError>)

  /** `calls` made before the wait `p`. */
  function Then(calls: seq<Call>, p: Poll): Poll {
    Poll(calls + p.calls, p.result)
  }

  /**
   * The wait from attempt `a` on, `poll(i)` being what the read of attempt
   * `i` returns: stops at the first snapshot holding a reply to `id`, or at
   * a failed read, and otherwise sleeps and tries again until the attempts
   * run out.
   */
  function Await(id: MessageId, poll: nat -> ReadResult, a: nat): (p: Poll)
    requires a <= MaxAttempts
    ensures |p.calls| <= 2 * (MaxAttempts - a)
    ensures p.result == Ok(TimedOut) ==> |p.calls| == 2 * (MaxAttempts - a)
    decreases MaxAttempts - a
  {
    if a == MaxAttempts then Poll([], Ok(TimedOut))
    else
      match poll(a)
      case Err(_) => Poll([ReadBoard], Err(ReadFailed))
      case Ok(comments) =>
        match ResponsePayload(Parsed(comments), id)
        case Some(payload) => Poll([ReadBoard], Ok(Responded(payload)))
        case None => Then([ReadBoard, Sleep(PollIntervalSecs)], Await(id, poll, a + 1))
  }

  /** The read of attempt `i` succeeds and finds no reply to `id`. */
  predicate Silent(id: MessageId, poll: nat -> ReadResult, i: nat) {
    poll(i).Ok? && !Answered(Parsed(poll(i).value), id)
  }

  /** Attempts `a` up to `j` are all silent. */
  predicate Quiet(id: MessageId, poll: nat -> ReadResult, a: nat, j: nat) {
    forall i | a <= i < j :: Silent(id, poll, i)
  }

  /** `k` unsuccessful attempts: a read and a sleep each. */
  function Rounds(k: nat): (calls: seq<Call>)
    ensures |calls| == 2 * k
  {
    if k == 0 then [] else [ReadBoard, Sleep(PollIntervalSecs)] + Rounds(k - 1)
  }

  /** The attempt a wait from `a` stops at: the first that is not silent, or `MaxAttempts`. */
  function SettledAt(id: MessageId, poll: nat -> ReadResult, a: nat): (j: nat)
    requires a <= MaxAttempts
    ensures a <= j <= MaxAttempts && Quiet(id, poll, a, j)
    ensures j < MaxAttempts ==> !Silent(id, poll, j)
    decreases MaxAttempts - a
  {
    if a == MaxAttempts || !Silent(id, poll, a) then a
    else
      var j := SettledAt(id, poll, a + 1);
      assert Quiet(id, poll, a, j) by {
        forall i | a <= i < j
          ensures Silent(id, poll, i)
        {
          if i > a {
            assert a + 1 <= i < j;
          }
        }
      }
      j
  }

  /**
   * What a wait from `a` that stops at attempt `j` must have done: every
   * attempt before `j` was silent and was followed by one sleep; at `j`
   * either the attempts had run out and the wait timed out, or one more
   * read was made and it either failed, aborting, or found a reply to `id`,
   * whose first payload is reported.
   */
  predicate Settles(id: MessageId, poll: nat -> ReadResult, a: nat, j: nat, p: Poll) {
    a <= j <= MaxAttempts && Quiet(id, poll, a, j)
    && if j == MaxAttempts then p == Poll(Rounds(j - a), Ok(TimedOut))
       else
         p.calls == Rounds(j - a) + [ReadBoard] && StopsWith(id, poll, j, p.result)
  }

  /**
   * How a wait ends at a read that is not silent: a failed read aborts,
   * and a snapshot holding a reply to `id` reports that reply's payload.
   */
  predicate StopsWith(id: MessageId, poll: nat -> ReadResult, j: nat, result: Result<Outcome, OperatorError>) {
    match poll(j)
    case Err(_) => result == Err(ReadFailed)
    case Ok(comments) =>
      Answered(Parsed(comments), id) && result == Ok(Responded(ResponsePayload(Parsed(comments), id).value))
  }

  /** The wait does what `Settles` says, stopping where `SettledAt` says. */
  lemma {:induction false} AwaitSettles(id: MessageId, poll: nat -> ReadResult, a: nat)
    requires a <= MaxAttempts
    ensures Settles(id, poll, a, SettledAt(id, poll, a), Await(id, poll, a))
    decreases MaxAttempts - a
  {
    if a < MaxAttempts && Silent(id, poll, a) {
      AwaitSettles(id, poll, a + 1);
    }
    SettlesFrom(id, poll, a);
  }

  /** The step of `AwaitSettles`: the wait from `a` settles, given that the one from `a + 1` does when it is reached. */
  lemma SettlesFrom(id: MessageId, poll: nat -> ReadResult, a: nat)
    requires a <= MaxAttempts
    requires a < MaxAttempts && Silent(id, poll, a)
          ==> Settles(id, poll, a + 1, SettledAt(id, poll, a + 1), Await(id, poll, a + 1))
    ensures Settles(id, poll, a, SettledAt(id, poll, a), Await(id, poll, a))
  {
    if a == MaxAttempts {
      AwaitDone(id, poll, a);
    } else if Silent(id, poll, a) {
      SilentSettles(id, poll, a);
    } else {
      AwaitNoisy(id, poll, a);
    }
  }

  /** A wait that settles from the next attempt on settles from a silent one too. */
  lemma SilentSettles(id: MessageId, poll: nat -> ReadResult, a: nat)
    requires a < MaxAttempts && Silent(id, poll, a)
    requires Settles(id, poll, a + 1, SettledAt(id, poll, a + 1), Await(id, poll, a + 1))
    ensures Settles(id, poll, a, SettledAt(id, poll, a), Await(id, poll, a))
  {
    AwaitSilent(id, poll, a);
    SettlesStep(id, poll, a, SettledAt(id, poll, a + 1), Await(id, poll, a + 1));
  }

  /** After a silent attempt the wait sleeps and goes on to the next. */
  lemma AwaitSilent(id: MessageId, poll: nat -> ReadResult, a: nat)
    requires a < MaxAttempts && Silent(id, poll, a)
    ensures Await(id, poll, a) == Then([ReadBoard, Sleep(PollIntervalSecs)], Await(id, poll, a + 1))
    ensures SettledAt(id, poll, a) == SettledAt(id, poll, a + 1)
  {
    assert ResponsePayload(Parsed(poll(a).value), id).None?;
  }

  /** A wait whose first attempt is not silent stops there. */
  lemma AwaitNoisy(id: MessageId, poll: nat -> ReadResult, a: nat)
    requires a < MaxAttempts && !Silent(id, poll, a)
    ensures Settles(id, poll, a, SettledAt(id, poll, a), Await(id, poll, a))
  {
    assert SettledAt(id, poll, a) == a;
    assert Rounds(0) + [ReadBoard] == [ReadBoard];
  }

  /** A wait with no attempts left times out without a call. */
  lemma AwaitDone(id: MessageId, poll: nat -> ReadResult, a: nat)
    requires a == MaxAttempts
    ensures Settles(id, poll, a, SettledAt(id, poll, a), Await(id, poll, a))
  {
    assert Await(id, poll, a) == Poll(Rounds(0), Ok(TimedOut));
  }

  /** A silent attempt followed by a settled wait is a settled wait one attempt earlier. */
  lemma SettlesStep(id: MessageId, poll: nat -> ReadResult, a: nat, j: nat, rest: Poll)
    requires a < MaxAttempts && Silent(id, poll, a)
    requires Settles(id, poll, a + 1, j, rest)
    ensures Settles(id, poll, a, j, Then([ReadBoard, Sleep(PollIntervalSecs)], rest))
  {
    assert Rounds(j - a) == [ReadBoard, Sleep(PollIntervalSecs)] + Rounds(j - (a + 1));
    if j < MaxAttempts {
      assert [ReadBoard, Sleep(PollIntervalSecs)] + (Rounds(j - (a + 1)) + [ReadBoard])
          == Rounds(j - a) + [ReadBoard];
    }
  }

  /** `Settles` pins the wait down: nothing else, stopping anywhere else, meets it. */
  lemma SettlesUnique(id: MessageId, poll: nat -> ReadResult, a: nat, j: nat, p: Poll)
    requires a <= MaxAttempts
    requires Settles(id, poll, a, j, p)
    ensures j == SettledAt(id, poll, a) && p == Await(id, poll, a)
  {
    var j' := SettledAt(id, poll, a);
    AwaitSettles(id, poll, a);
    SameStop(id, poll, a, j, p, j', Await(id, poll, a));
    SameOutcome(id, poll, a, j, p, Await(id, poll, a));
  }

  /** Two waits from `a` that meet `Settles` stop at the same attempt: the first one that is not silent. */
  lemma SameStop(id: MessageId, poll: nat -> ReadResult, a: nat, j: nat, p: Poll, j': nat, p': Poll)
    requires Settles(id, poll, a, j, p) && Settles(id, poll, a, j', p')
    ensures j == j'
  {
    if j < j' {
      SettledNoisy(id, poll, a, j, p);
    } else if j' < j {
      SettledNoisy(id, poll, a, j', p');
    }
  }

  /** Two waits from `a` that meet `Settles` at the same attempt made the same calls with the same outcome. */
  lemma SameOutcome(id: MessageId, poll: nat -> ReadResult, a: nat, j: nat, p: Poll, p': Poll)
    requires Settles(id, poll, a, j, p) && Settles(id, poll, a, j, p')
    ensures p == p'
  {
    if j < MaxAttempts {
      assert p.calls == p'.calls;
      assert p.result == p'.result by {
        assert StopsWith(id, poll, j, p.result) && StopsWith(id, poll, j, p'.result);
      }
    }
  }

  /** A wait that stops before the attempts run out stops at an attempt that is not silent. */
  lemma SettledNoisy(id: MessageId, poll: nat -> ReadResult, a: nat, j: nat, p: Poll)
    requires Settles(id, poll, a, j, p) && j < MaxAttempts
    ensures !Silent(id, poll, j)
  {
  }

  /** The wait times out exactly when all its reads succeed and none finds a reply. */
  lemma TimesOutIff(id: MessageId, poll: nat -> ReadResult)
    ensures Await(id, poll, 0).result == Ok(TimedOut) <==> Quiet(id, poll, 0, MaxAttempts)
  {
    AwaitSettles(id, poll, 0);
  }

  /** The number of reads among `calls`. */
  function Reads(calls: seq<Call>): nat {
    if calls == [] then 0 else (if calls[0] == ReadBoard then 1 else 0) + Reads(calls[1..])
  }

  /** The seconds slept during `calls`. */
  function Slept(calls: seq<Call>): nat {
    if calls == [] then 0 else (if calls[0].Sleep? then calls[0].seconds else 0) + Slept(calls[1..])
  }

  lemma {:induction false} CountsAppend(x: seq<Call>, y: seq<Call>)
    ensures Reads(x + y) == Reads(x) + Reads(y) && Slept(x + y) == Slept(x) + Slept(y)
    decreases |x|
  {
    if x == [] {
      assert x + y == y;
    } else {
      assert (x + y)[1..] == x[1..] + y;
      CountsAppend(x[1..], y);
    }
  }

  lemma {:induction false} RoundsCounts(k: nat)
    ensures Reads(Rounds(k)) == k && Slept(Rounds(k)) == PollIntervalSecs * k
    ensures forall c | c in Rounds(k) :: c == ReadBoard || c == Sleep(PollIntervalSecs)
  {
    if k > 0 {
      RoundsCounts(k - 1);
      CountsAppend([ReadBoard, Sleep(PollIntervalSecs)], Rounds(k - 1));
      assert [ReadBoard, Sleep(PollIntervalSecs)][1..] == [Sleep(PollIntervalSecs)];
    }
  }

  /**
   * A wait makes at most `MaxAttempts` reads and nothing but reads and
   * sleeps; each read that finds no reply is followed by one sleep, so it
   * sleeps at most `MaxAttempts * PollIntervalSecs` seconds.
   */
  lemma AwaitBounded(id: MessageId, poll: nat -> ReadResult)
    ensures var p := Await(id, poll, 0);
      Reads(p.calls) <= MaxAttempts
      && Slept(p.calls) == PollIntervalSecs * (if p.result == Ok(TimedOut) then Reads(p.calls) else Reads(p.calls) - 1)
      && Slept(p.calls) <= MaxAttempts * PollIntervalSecs
      && forall c | c in p.calls :: c == ReadBoard || c == Sleep(PollIntervalSecs)
  {
    var j, p := SettledAt(id, poll, 0), Await(id, poll, 0);
    AwaitSettles(id, poll, 0);
    RoundsCounts(j);
    if j < MaxAttempts {
      CountsAppend(Rounds(j), [ReadBoard]);
      assert [ReadBoard][1..] == [];
      assert p.calls == Rounds(j) + [ReadBoard] && p.result != Ok(TimedOut);
    } else {
      assert p.calls == Rounds(j) && p.result == Ok(TimedOut);
    }
  }

  /** One more unsuccessful attempt at the end. */
  lemma {:induction false} RoundsSnoc(k: nat)
    ensures Rounds(k) + [ReadBoard, Sleep(PollIntervalSecs)] == Rounds(k + 1)
  {
    if k > 0 {
      RoundsSnoc(k - 1);
      assert [ReadBoard, Sleep(PollIntervalSecs)] + Rounds(k - 1) + [ReadBoard, Sleep(PollIntervalSecs)]
          == [ReadBoard, Sleep(PollIntervalSecs)] + (Rounds(k - 1) + [ReadBoard, Sleep(PollIntervalSecs)]);
    }
  }

  /**
   * One attempt of the poll loop: reads the board and says whether the
   * wait stops here, and how; it goes on exactly when the read is silent.
   */
  method Attempt(id: MessageId, poll: nat -> ReadResult, attempt: nat) returns (stop: Option<Result<Outcome, OperatorError>>)
    ensures stop.None? <==> Silent(id, poll, attempt)
    ensures stop.Some? ==> StopsWith(id, poll, attempt, stop.value)
  {
    var msgs := ReadAllMessages(poll(attempt));
    if msgs.Err? {
      return Some(Err(ReadFailed));
    }
    var response := ResponsePayload(msgs.value, id);
    if response.Some? {
      return Some(Ok(Responded(response.value)));
    }
    return None;
  }

  /**
   * The poll loop: up to `MaxAttempts` attempts, stopping at the first
   * snapshot holding an `Output` with the submitted id or at a failed read;
   * a read that finds no reply is followed by a sleep.
   */
  method AwaitReply(id: MessageId, poll: nat -> ReadResult) returns (calls: seq<Call>, result: Result<Outcome, OperatorError>)
    ensures Poll(calls, result) == Await(id, poll, 0)
  {
    calls := [];
    for attempt := 0 to MaxAttempts
      invariant calls == Rounds(attempt) && Quiet(id, poll, 0, attempt)
    {
      var stop := Attempt(id, poll, attempt);
      if stop.Some? {
        calls, result := calls + [ReadBoard], stop.value;
        SettlesUnique(id, poll, 0, attempt, Poll(calls, result));
        return;
      }
      RoundsSnoc(attempt);
      calls := calls + [ReadBoard, Sleep(PollIntervalSecs)];
    }
    result := Ok(TimedOut);
    SettlesUnique(id, poll, 0, MaxAttempts, Poll(calls, result));
  }

  /**
   * The submit arm: posts the command under the fresh id `id`, then waits
   * for its reply. `command` is the non-empty text the prompt returned;
   * `appendOk` says whether the post succeeds and `poll` what each read
   * returns.
   */
  method Submit(command: Utf8, id: MessageId, appendOk: bool, poll: nat -> ReadResult)
    returns (calls: seq<Call>, result: Result<Outcome, OperatorError>)
    requires command != []
    ensures !appendOk ==> calls == [Post(Encode(Message(Command, id, command)))] && result == Err(PostFailed)
    ensures appendOk ==> Poll(calls, result) == Then([Post(Encode(Message(Command, id, command)))], Await(id, poll, 0))
  {
    var request := Post(Encode(Message(Command, id, command)));
    if !appendOk {
      return [request], Err(PostFailed);
    }
    var waited;
    waited, result := AwaitReply(id, poll);
    calls := [request] + waited;
  }

  // ---------------------------------------------------------------------------
  // Clearing the board and stopping the agent

  /**
   * The clear arm: the board is cleared only once the operator confirms.
   * Returns whether it was cleared; a failed clear aborts the operator.
   */
  method Clear(confirm: bool, clearOk: bool) returns (calls: seq<Call>, result: Result<bool, OperatorError>)
    ensures calls == (if confirm then [ClearBoard] else [])
    ensures result == (if !confirm then Ok(false) else if clearOk then Ok(true) else Err(ClearFailed))
  {
    if !confirm {
      return [], Ok(false);
    }
    calls := [ClearBoard];
    if !clearOk {
      return calls, Err(ClearFailed);
    }
    return calls, Ok(true);
  }

  /**
   * The exit arm: posts an `Exit` with an empty payload under the fresh id
   * `id` and, once posted, ends the menu without waiting for a reply.
   */
  method RequestExit(id: MessageId, appendOk: bool) returns (calls: seq<Call>, result: Result<Message, OperatorError>)
    ensures calls == [Post(Encode(Message(Exit, id, [])))]
    ensures appendOk ==> result == Ok(Message(Exit, id, []))
    ensures !appendOk ==> result == Err(PostFailed)
  {
    var request := Message(Exit, id, []);
    calls := [Post(Encode(request))];
    if !appendOk {
      return calls, Err(PostFailed);
    }
    return calls, Ok(request);
  }

  // ---------------------------------------------------------------------------
  // What the other side reads back

  /** A posted message is read back, after what was already on the board, by whoever reads next. */
  lemma PostReadsBack(board: seq<Utf8>, m: Message)
    ensures Parsed(board + [Encode(m)]) == Parsed(board) + [m]
  {
    ParsedAppend(board, [Encode(m)]);
    RoundTrip(m);
    assert [Encode(m)][..0] == [];
  }

  /**
   * A reply posted for an id the board did not answer yet is the reply the
   * next read reports, to the listing and to a waiting submission alike.
   */
  lemma ReplyIsSeen(board: seq<Utf8>, reply: Message)
    requires reply.kind == Output && !Answered(Parsed(board), reply.id)
    ensures ResponsePayload(Parsed(board + [Encode(reply)]), reply.id) == Some(reply.payload)
  {
    PostReadsBack(board, reply);
    AppendedResponse(Parsed(board), reply);
  }
}
