# google-doc2 message protocol, modelled in Dafny

google-doc2 is a command channel that uses the comment thread of a shared
document as its only transport. The operator posts commands as comments. The
agent reads every comment, runs each command that has no reply yet and posts
its output back as another comment. Every comment is a `Message`: a kind tag
(`Command` 0x01, `Output` 0x02, `Exit` 0x03), a 12-byte correlation id and a
UTF-8 payload. It is written as lower-case hex: two digits for the tag,
24 for the id and two per payload byte.

This project models the following:

- the message codec, `Message::to_string` / `Message::from_str` with their
  slicing, hex and UTF-8 checks in the source's order (`Shell`, built on `Hex`
  and `Text`);
- `read_all_messages`, which keeps the comments that decode (`Shell`);
- the reply look-ups shared by both programs (`Replies`);
- one pass of the agent's polling loop (`Agent`);
- the four arms of the operator's menu: list, submit-and-poll, clear and exit
  (`Operator`).

Text is modelled as bytes (`Text.Byte`). A Rust `String` is a byte sequence
that is well-formed UTF-8 (`Text.Utf8`, following table 3-7 of the Unicode
Standard). `str::get(a..b)` slices by byte index and returns nothing off a
character boundary.

The transport is not modelled; its results are inputs. A read is a
`ReadResult`: the list of comment strings, or a failure. An append or a clear
is a boolean that says whether it succeeded. The agent's command execution is
a function `execute(k, text)`: what the k-th command run of the pass (counting
from 0) yields for that command text, either its captured stdout or a spawn
failure. Two runs of the same text may therefore give different output. The operator's random ids, prompt answers and the results of its
successive reads are parameters. Each operation returns what it appended
(agent) or the transport calls it made, in order (operator: `Operator.Call`,
including the 5-second sleeps).

In these places the model follows the code's actual behaviour:

- `from_str` parses the tag text before it checks the id's length. A 2-byte
  comment such as `zz` fails with a tag error. "Message too short" only
  arises when one of the three `get` slices fails.
- Decoding accepts upper-case hex digits in all three segments. The tag also
  accepts a leading `+` (`+1` is tag 1). Only the encoder writes lower case
  only (`Shell.AcceptsNonCanonical`).
- In the agent, a failed spawn, non-UTF-8 stdout or a failed append ends the
  agent with an error (`?`). None of them is turned into an `Output` payload.
- In the operator's wait, a failed read aborts the operator (`?`). It is not
  counted as a used attempt.
- The agent handles unanswered entries in snapshot order and stops at the
  first unanswered `Exit`. It keeps no memory of ids answered in earlier
  passes. Within one pass, duplicate unanswered commands with the same id are
  each executed and answered, because the skip test only sees the snapshot
  read at the start of the pass.

## Model

| member | source | states |
|---|---|---|
| Shell.TryFromTag | src/shell.rs:13-24 | exactly the bytes 0x01..0x03 map to a kind, and the kind's `as u8` value is that byte |
| Shell.TagRoundTrip | src/shell.rs:5-24 | `try_from` inverts `as u8` for every kind |
| Shell.Encode | src/shell.rs:33-42 | the text is lower-case hex (so valid UTF-8) of length 26 + 2 x payload bytes |
| Shell.Decode | src/shell.rs:44-59 | a decoded comment has length 26 + 2 x payload; the "Invalid length" error is never returned, since a 24-digit id that hex-decodes is 12 bytes |
| Shell.DecodeIff | src/shell.rs:47-58 | a comment decodes to `m` iff it has at least 26 bytes, its first two parse (from_str_radix 16) to `m`'s tag, bytes 2..26 hex-decode to the id and the rest hex-decodes to the payload |
| Shell.RoundTrip | src/shell.rs:33-58 | `from_str(to_string(m)) == Ok(m)` for every message |
| Shell.EncodeInjective | src/shell.rs:33-42 | distinct messages have distinct encodings |
| Shell.Canonical | src/shell.rs:44-59 | a lower-case comment that decodes to `m` is exactly `to_string(m)` |
| Shell.HeaderOnly | src/shell.rs:48-50 | an empty payload encodes to exactly 26 bytes and round-trips; a decoded 26-byte comment has an empty payload |
| Shell.Rejected | src/shell.rs:48-56 | decoding fails for: fewer than 26 bytes, a tag that parses to an unknown kind, a non-hex id, an odd length, a non-hex payload, or a payload that is not UTF-8 |
| Shell.LateErrors | src/shell.rs:48-56 | fewer than 2 bytes gives "too short"; with all three segments well-formed, an unknown tag gives "Invalid message type" and bad UTF-8 gives the UTF-8 error, in that order |
| Shell.TestVector | src/shell.rs:78-96 | the command with id 0x02 x 12 and payload "Hello, world!" encodes to `0102020202020202020202020248656c6c6f2c20776f726c6421`, and that text decodes back to it |
| Shell.AcceptsNonCanonical | src/shell.rs:48-50 | `+1`, 24 zeros and `4A` decodes to the command "J" with a zero id, whose encoding differs from the input |
| Shell.ParsedMembership | src/shell.rs:64-71 | a message is read iff some comment of the snapshot decodes to it |
| Shell.KeepsExactlyDecodable | src/shell.rs:66-70 | each comment contributes its message, in place, iff it decodes; an undecodable one is dropped without disturbing the rest |
| Shell.ParsedAppend | src/shell.rs:66-70 | reading a concatenation of comment lists reads each part in order |
| Shell.ReadAllMessages | src/shell.rs:61-72 | a failed read is passed on; otherwise the result is every comment that decodes, in snapshot order, and an undecodable comment never causes an error |
| Hex.Encode | src/shell.rs:38-39 | `hex::encode` writes two lower-case digits per byte |
| Hex.Decode | src/shell.rs:49-50 | `hex::decode` yields half as many bytes as the text has digits |
| Hex.DecodeEncode | src/shell.rs:49-50 | `hex::decode` inverts `hex::encode` |
| Hex.DecodeSucceedsIff | src/shell.rs:49-50 | `hex::decode` succeeds iff the length is even and every byte is a hex digit of either case |
| Hex.EncodeDecode | src/shell.rs:49-50 | on lower-case text, `hex::encode` inverts `hex::decode` |
| Hex.ParseEncodedByte | src/shell.rs:48 | `u8::from_str_radix(_, 16)` reads back the byte that `{:02x}` wrote |
| Hex.ParsedPairIsCanonical | src/shell.rs:48 | two lower-case digits that parse to a byte are that byte's `{:02x}` form |
| Hex.FromStrRadix16 | src/shell.rs:48 | `u8::from_str_radix(_, 16)` fails with "empty" exactly on empty text and refuses a leading `-`; a success starts with `+` or a digit and is digits after that; two digits give high x 16 + low, and `+` and a digit give that digit |
| Hex.AccumulateDigits | src/shell.rs:48 | accumulating digits succeeds only on all-digit text, never lowers the value and never reports "empty"; one more digit d on a value below 16 gives value x 16 + d |
| Hex.DecodePairs | src/shell.rs:49-50 | decoding an even number of digits yields one byte per pair |
| Text.ValidUtf8 | src/shell.rs:56 | well-formed UTF-8 text never starts with a continuation byte |
| Text.IsCharBoundary | src/shell.rs:48-50 | every ASCII byte starts a character, and no index past the end is a boundary |
| Text.Get | src/shell.rs:48-50 | `str::get(lo..hi)` returns exactly the bytes `lo..hi` when it succeeds; a range inside the text whose ends are the text's ends or ASCII bytes always succeeds; a range starting inside the text on a continuation byte always fails |
| Shell.TypeTag | src/shell.rs:5-11 | the `as u8` value of a kind is one of 0x01..0x03 |
| Shell.Parsed | src/shell.rs:64-71 | reading a snapshot yields at most one message per comment |
| Shell.DecodedHeaderIsAscii | src/shell.rs:48-50 | a comment that decodes starts with 26 ASCII bytes: `+` or a digit, then 25 digits |
| Text.AsciiIsUtf8 | src/shell.rs:34-41 | ASCII text, such as the encoder's output, is valid UTF-8 |
| Replies.Answered | examples/shell_agent.rs:15-18 | an id is answered iff the snapshot holds an `Output` message with that id |
| Replies.FirstResponse | examples/shell_server.rs:74-80 | finds the first `Output` with the id; it exists iff the snapshot answers the id |
| Replies.ResponsePayload | examples/shell_server.rs:36-45 | the payload reported for an id is that of an `Output` with that id in the snapshot; there is one iff the id is answered |
| Replies.OutputAnswersItself | examples/shell_agent.rs:15-20 | every `Output` answers its own id, so the agent always skips it |
| Replies.FirstResponseStable | examples/shell_server.rs:36-45 | comments added after a snapshot do not change the first reply it already holds |
| Replies.AppendedResponse | examples/shell_server.rs:74-80 | an `Output` appended to a snapshot with no reply to its id becomes the reply found |
| Agent.ExitAck | examples/shell_agent.rs:26 | the acknowledgement "Exiting..." is 10 ASCII bytes |
| Agent.Pending | examples/shell_agent.rs:14-20 | the entries a pass acts on come from the snapshot, are unanswered in it and are never `Output`s |
| Agent.PendingCount | examples/shell_agent.rs:13-20 | an entry is acted on iff the snapshot holds it and does not answer its id, once per occurrence, so duplicate unanswered commands are each answered |
| Agent.Reply | examples/shell_agent.rs:21-57 | a reply is an `Output` with the entry's id; only a command can fail, with a spawn failure or non-UTF-8 stdout |
| Agent.RunCommand | examples/shell_agent.rs:33-48 | running a command as the k-th run of the pass gives the `Output` with its id and that run's UTF-8 stdout, or the error that ends the agent |
| Agent.ServeConforms | examples/shell_agent.rs:14-59 | the k-th append answers the k-th pending entry, every entry answered before an `Exit` is a command, and the pass ends after all entries, right after an `Exit`, or at the entry whose reply could not be made or posted |
| Agent.ConformsUnique | examples/shell_agent.rs:14-59 | those promises determine the pass completely |
| Agent.PassEffects | examples/shell_agent.rs:21-57 | the k-th append is an `Output` under the k-th pending entry's id, carrying the stdout of the k-th command run of the pass or "Exiting..." for an `Exit` |
| Agent.ExitEnds | examples/shell_agent.rs:21-32 | a terminated pass posted the `Exit`'s acknowledgement last, and only command replies before it |
| Agent.AnswersEveryCommand | examples/shell_agent.rs:33-57 | when all pending entries are commands that run, print UTF-8 and are posted, the pass makes exactly one append per entry, in order, with its stdout, and keeps running |
| Agent.AppendsAnswerUnanswered | examples/shell_agent.rs:22-27 | every append is an `Output` under the id of an unanswered `Command`/`Exit` entry of the snapshot |
| Agent.Scan | examples/shell_agent.rs:14-59 | a pass from entry i on appends at most once per remaining entry, and a pass that terminates has appended something |
| Agent.ScanIsServe | examples/shell_agent.rs:14-31 | the pass over the snapshot from entry i on is the pass over its unanswered entries from i on |
| Agent.PassIsServe | examples/shell_agent.rs:14-59 | a whole pass is the pass over the pending entries |
| Agent.Handle | examples/shell_agent.rs:15-58 | one loop body skips an answered entry, acknowledges an `Exit` and stops, or runs a command and posts its output, as `Agent.Scan` defines the pass |
| Agent.AnswerAll | examples/shell_agent.rs:14-59 | the `for` loop over a snapshot appends and ends exactly as `Agent.Scan` defines the pass |
| Agent.Tick | examples/shell_agent.rs:12-61 | a failed read ends the agent with nothing posted; otherwise the pass runs over the messages that parse |
| Operator.List | examples/shell_server.rs:29-48 | the listing makes one read; it fails on a failed read and otherwise prints the lines of the commands of the snapshot |
| Operator.Row | examples/shell_server.rs:36-46 | a command's line shows the command's text; it shows `<no output (yet?)>` when no `Output` has its id, and otherwise the payload of an `Output` of the snapshot with its id |
| Operator.Rows | examples/shell_server.rs:32-47 | one line per command, line k being the line of command k |
| Operator.RowsAppend | examples/shell_server.rs:32-47 | the lines of two runs of commands are the lines of each, one after the other |
| Operator.Listing | examples/shell_server.rs:32-47 | the listing has at most one line per message, and every line's text is the payload of a `Command` of the snapshot |
| Operator.PrintLine | examples/shell_server.rs:36-46 | the line printed for a command is its `Row` |
| Operator.PrintLines | examples/shell_server.rs:32-47 | the printing loop prints exactly the `Listing` of the snapshot |
| Operator.ListingShows | examples/shell_server.rs:32-47 | line k belongs to a command of the snapshot and shows the payload of the first `Output` with its id, or `<no output (yet?)>` if there is none |
| Operator.ListingCounts | examples/shell_server.rs:32-35 | the listing has one line per kept command, line k being the line of the k-th command; each command is kept as often as it occurs, and nothing else is kept |
| Operator.ListingOrder | examples/shell_server.rs:32-47 | the listing of a + b is the lines of a's commands, then those of b's, all looked up in a + b |
| Operator.RowStable | examples/shell_server.rs:36-45 | once a command shows an output, later snapshots that extend this one show the same output |
| Operator.Await | examples/shell_server.rs:71-88 | a wait from attempt a makes at most 2 x (60 - a) calls, and exactly that many when it times out |
| Operator.SettledAt | examples/shell_server.rs:72-84 | the wait stops at the first attempt that is not silent, or after 60; every attempt before it is silent |
| Operator.AwaitSettles | examples/shell_server.rs:71-88 | the wait makes one read and one sleep per silent attempt; it then times out after 60, or reads once more and aborts on a failed read or reports the first reply's payload |
| Operator.SettlesUnique | examples/shell_server.rs:71-88 | that description determines the wait and where it stops |
| Operator.TimesOutIff | examples/shell_server.rs:72-87 | the wait reports a timeout iff all 60 reads succeed and none holds a reply, so never after a match |
| Operator.AwaitBounded | examples/shell_server.rs:72-85 | the wait makes at most 60 reads and only reads and 5-second sleeps; one sleep follows each read that found nothing, so it sleeps at most 300 s |
| Operator.RoundsCounts | examples/shell_server.rs:72-85 | k unsuccessful attempts are k reads and 5k seconds of sleep |
| Operator.Attempt | examples/shell_server.rs:73-85 | an attempt goes on iff its read succeeds and finds no reply; otherwise it stops with the failure or the reply |
| Operator.AwaitReply | examples/shell_server.rs:71-88 | the bounded poll loop makes the calls and reaches the outcome that `Operator.Await` defines |
| Operator.Submit | examples/shell_server.rs:49-89 | posts exactly one `Command` with the fresh id and the text before any read; a failed post aborts; otherwise it waits |
| Operator.Clear | examples/shell_server.rs:90-102 | the board is cleared iff the operator confirms; a failed clear aborts |
| Operator.RequestExit | examples/shell_server.rs:103-117 | posts one `Exit` with an empty payload under the fresh id and nothing else, without waiting for a reply |
| Operator.PostReadsBack | src/shell.rs:61-72 | a posted message is read back after what was already on the board |
| Operator.ReplyIsSeen | examples/shell_server.rs:74-80 | an `Output` posted for an id the board did not answer yet is the reply the next read reports |

## Left out

- Browser automation (`src/lib.rs`): opening the document, finding elements,
  typing, clicking and teardown. Reads, appends and clears become inputs.
- `examples/add_comment.rs` and `examples/read_comments.rs`: one-line wrappers
  over the transport. They are not part of this model.
- The agent's unbounded `'outer` loop and its 5-second sleep between passes.
  `Agent.Tick` is one pass, and repeating it is left to the caller.
- The operator's menu `loop` and its prompts. Each arm is one method. The
  choice, the command text, the confirmation and the random ids are
  parameters, and the spinner and printed text are not modelled.
- Process spawning (`cmd /C` or `sh -c`, and the panic on other systems) is
  the abstract `execute` function. A process's exit status is ignored, as in
  the source.
- Concurrency between agent and operator, and propagation delay on the board.
  Each model is one sequential process over given snapshots.
- Error messages are error kinds; the boxed error's text is not modelled.
