/** The Redis client of Redis/include/Poco/Redis/Client.h: the five kinds of
    reply, the coercion of a reply to the type a caller asks for, and the
    pipelining discipline of writeCommand / readReply over one socket.

    The socket is a FIFO: the commands written so far and the queue of replies
    the server has sent but the client has not read yet. The server itself is a
    parameter: a function that, given every command written so far, gives the
    reply to the last of them (a server that answers in request order, and may
    keep state). The wire encoding is not part of this model. */
module RedisClient {
  import opened Wrappers
  import opened FixedWidth

  /** A command: the command name followed by its arguments. */
  type Command = seq<string>

  /** A reply is exactly one of five kinds. A bulk string and an array may be
      Null (None), which is not the same as empty. */
  datatype Reply =
    | Integer(int64: Int64)
    | SimpleString(text: string)
    | BulkString(bulk: Option<string>)
    | Array(elements: Option<seq<Reply>>)
    | Error(message: string)

  /** The type ids of ElementTraits<T>::TypeId. */
  datatype ReplyType = IntegerType | SimpleStringType | BulkStringType | ArrayType | ErrorType

  function TypeOf(r: Reply): ReplyType
  {
    match r
    case Integer(_) => IntegerType
    case SimpleString(_) => SimpleStringType
    case BulkString(_) => BulkStringType
    case Array(_) => ArrayType
    case Error(_) => ErrorType
  }

  /** What readReply<T> makes of one reply: the reply itself, or the exception
      it throws. */
  datatype Coerced =
    | Value(reply: Reply)
    | RedisException(message: string)
    | BadCastException

  /** readReply<T>'s conversion: an error reply becomes a RedisException with
      the server's message before any type is looked at; a reply of the asked
      type is handed back; any other reply is a BadCastException. */
  function Coerce(r: Reply, want: ReplyType): (res: Coerced)
    ensures res.RedisException? <==> r.Error?
    ensures res.RedisException? ==> res.message == r.message
    ensures res.Value? <==> !r.Error? && TypeOf(r) == want
    ensures res.Value? ==> res.reply == r
    ensures res.BadCastException? <==> !r.Error? && TypeOf(r) != want
  {
    if TypeOf(r) == ErrorType then RedisException(r.message)
    else if TypeOf(r) == want then Value(r)
    else BadCastException
  }

  /** A reply of the asked kind comes back with its payload intact, so a Null
      bulk string and an empty one stay apart after coercion. */
  lemma NullBulkStringIsNotEmpty()
    ensures Coerce(BulkString(None), BulkStringType) == Value(BulkString(None))
    ensures Coerce(BulkString(Some("")), BulkStringType) == Value(BulkString(Some("")))
    ensures Coerce(BulkString(None), BulkStringType) != Coerce(BulkString(Some("")), BulkStringType)
  {
  }

  /** Asking for the error type still raises: the error test comes first. */
  lemma ErrorCheckedBeforeType(msg: string, want: ReplyType)
    ensures Coerce(Error(msg), want) == RedisException(msg)
  {
  }

  /** One step the socket sees, in order. */
  datatype Event = Wrote(command: Command) | Read(reply: Reply)

  /** The replies a server sends to `commands` written after `history`. */
  ghost function Responses(server: seq<Command> -> Reply, history: seq<Command>, commands: seq<Command>): (rs: seq<Reply>)
    ensures |rs| == |commands|
    ensures forall i :: 0 <= i < |commands| ==> rs[i] == server(history + commands[..i + 1])
  {
    seq(|commands|, i requires 0 <= i < |commands| => server(history + commands[..i + 1]))
  }

  lemma ResponsesAppend(server: seq<Command> -> Reply, history: seq<Command>, commands: seq<Command>, c: Command)
    ensures Responses(server, history, commands + [c])
         == Responses(server, history, commands) + [server(history + commands + [c])]
  {
    var l, r := Responses(server, history, commands + [c]), Responses(server, history, commands) + [server(history + commands + [c])];
    assert |l| == |r|;
    forall i | 0 <= i < |l| ensures l[i] == r[i] {
      if i < |commands| {
        assert (commands + [c])[..i + 1] == commands[..i + 1];
      } else {
        assert (commands + [c])[..i + 1] == commands + [c];
        assert history + (commands + [c]) == history + commands + [c];
      }
    }
  }

  function Writes(commands: seq<Command>): (es: seq<Event>)
    ensures |es| == |commands|
    ensures forall i :: 0 <= i < |commands| ==> es[i] == Wrote(commands[i])
  {
    if commands == [] then [] else [Wrote(commands[0])] + Writes(commands[1..])
  }

  function Reads(replies: seq<Reply>): (es: seq<Event>)
    ensures |es| == |replies|
    ensures forall i :: 0 <= i < |replies| ==> es[i] == Read(replies[i])
  {
    if replies == [] then [] else [Read(replies[0])] + Reads(replies[1..])
  }

  lemma WritesAppend(commands: seq<Command>, c: Command)
    ensures Writes(commands + [c]) == Writes(commands) + [Wrote(c)]
  {
    assert |Writes(commands + [c])| == |Writes(commands) + [Wrote(c)]|;
  }

  lemma ReadsAppend(replies: seq<Reply>, r: Reply)
    ensures Reads(replies + [r]) == Reads(replies) + [Read(r)]
  {
    assert |Reads(replies + [r])| == |Reads(replies) + [Read(r)]|;
  }

  class Client {
    /** The server at the other end of the socket. */
    const server: seq<Command> -> Reply
    /** Every command written on the socket, oldest first. */
    var written: seq<Command>
    /** Replies sent by the server and not yet read, oldest first. */
    var pending: seq<Reply>
    /** How many written commands still wait for their reply to be read. */
    ghost var outstanding: nat
    /** Everything the client did on the socket, in order. */
    ghost var trace: seq<Event>

    /** The queue holds, in order, the replies to the last `outstanding`
        commands written: replies come back in the order commands went out. */
    ghost predicate Valid()
      reads this
    {
      && outstanding == |pending| <= |written|
      && forall i :: 0 <= i < |pending| ==>
           pending[i] == server(written[..|written| - |pending| + i + 1])
    }

    /** The reply the next readReply will return: the one to the oldest
        command whose reply has not been read. */
    ghost function NextReply(): Reply
      reads this
      requires Valid() && outstanding > 0
      ensures NextReply() == server(written[..|written| - |pending| + 1])
    {
      pending[0]
    }

    constructor (server: seq<Command> -> Reply)
      ensures Valid()
      ensures this.server == server
      ensures written == [] && pending == [] && outstanding == 0 && trace == []
    {
      this.server := server;
      written := [];
      pending := [];
      outstanding := 0;
      trace := [];
    }

    /** writeCommand: sends one command; the server queues its reply. */
    method WriteCommand(command: Command)
      requires Valid()
      modifies this
      ensures Valid()
      ensures written == old(written) + [command]
      ensures pending == old(pending) + [server(old(written) + [command])]
      ensures outstanding == old(outstanding) + 1
      ensures trace == old(trace) + [Wrote(command)]
    {
      written := written + [command];
      pending := pending + [server(written)];
      outstanding := outstanding + 1;
      trace := trace + [Wrote(command)];
      forall i | 0 <= i < |pending|
        ensures pending[i] == server(written[..|written| - |pending| + i + 1])
      {
        if i < |pending| - 1 {
          assert written[..|written| - |pending| + i + 1] == old(written)[..|old(written)| - |old(pending)| + i + 1];
        } else {
          assert written[..|written| - |pending| + i + 1] == written;
        }
      }
    }

    /** readReply(): takes the oldest queued reply. The caller must have
        written a command whose reply it has not read yet. */
    method ReadReply() returns (r: Reply)
      requires Valid() && outstanding > 0
      modifies this
      ensures Valid()
      ensures written == old(written) && pending == old(pending)[1..]
      ensures r == old(NextReply())
      ensures r == server(written[..|written| - old(|pending|) + 1])
      ensures outstanding == old(outstanding) - 1
      ensures trace == old(trace) + [Read(r)]
    {
      r := pending[0];
      pending := pending[1..];
      outstanding := outstanding - 1;
      trace := trace + [Read(r)];
    }

    /** readReply<T>(result): reads one reply and coerces it; the reply is
        consumed whether or not the coercion throws. */
    method ReadReplyAs(want: ReplyType) returns (res: Coerced)
      requires Valid() && outstanding > 0
      modifies this
      ensures Valid()
      ensures res == Coerce(old(NextReply()), want)
      ensures written == old(written) && pending == old(pending)[1..]
      ensures outstanding == old(outstanding) - 1
      ensures trace == old(trace) + [Read(old(NextReply()))]
    {
      var r := ReadReply();
      res := Coerce(r, want);
    }

    /** execute<T>: one write, then one read, in that order. The read returns
        the oldest unread reply, which is this command's own reply exactly
        when nothing was outstanding before. */
    method Execute(command: Command, want: ReplyType) returns (res: Coerced)
      requires Valid()
      modifies this
      ensures Valid()
      ensures written == old(written) + [command]
      ensures outstanding == old(outstanding)
      ensures old(outstanding) == 0 ==> res == Coerce(server(old(written) + [command]), want)
      ensures old(outstanding) > 0 ==> res == Coerce(old(NextReply()), want)
      ensures exists r :: trace == old(trace) + [Wrote(command), Read(r)] && res == Coerce(r, want)
    {
      WriteCommand(command);
      ghost var r := pending[0];
      res := ReadReplyAs(want);
      assert trace == old(trace) + [Wrote(command), Read(r)];
    }

    /** execute<void>: only writes; the reply stays queued for a later read. */
    method ExecuteVoid(command: Command)
      requires Valid()
      modifies this
      ensures Valid()
      ensures written == old(written) + [command]
      ensures pending == old(pending) + [server(old(written) + [command])]
      ensures outstanding == old(outstanding) + 1
      ensures trace == old(trace) + [Wrote(command)]
    {
      WriteCommand(command);
    }

    /** sendCommand: writes the command and returns the next reply as it is,
        an error reply included. */
    method SendCommand(command: Command) returns (r: Reply)
      requires Valid()
      modifies this
      ensures Valid()
      ensures written == old(written) + [command]
      ensures outstanding == old(outstanding)
      ensures r == (old(pending) + [server(old(written) + [command])])[0]
      ensures pending == (old(pending) + [server(old(written) + [command])])[1..]
      ensures old(outstanding) == 0 ==> r == server(old(written) + [command])
      ensures old(outstanding) > 0 ==> r == old(NextReply())
      ensures trace == old(trace) + [Wrote(command), Read(r)]
    {
      WriteCommand(command);
      r := ReadReply();
    }

    /** The first loop of sendCommands: writes each command in turn. */
    method WriteCommands(commands: seq<Command>)
      requires Valid()
      modifies this
      ensures Valid()
      ensures written == old(written) + commands
      ensures pending == old(pending) + Responses(server, old(written), commands)
      ensures outstanding == old(outstanding) + |commands|
      ensures trace == old(trace) + Writes(commands)
    {
      var i := 0;
      while i < |commands|
        invariant 0 <= i <= |commands|
        invariant Valid()
        invariant written == old(written) + commands[..i]
        invariant pending == old(pending) + Responses(server, old(written), commands[..i])
        invariant trace == old(trace) + Writes(commands[..i])
      {
        WriteCommand(commands[i]);
        assert commands[..i + 1] == commands[..i] + [commands[i]];
        assert old(written) + commands[..i + 1] == old(written) + commands[..i] + [commands[i]];
        WritesAppend(commands[..i], commands[i]);
        ResponsesAppend(server, old(written), commands[..i], commands[i]);
        i := i + 1;
      }
      assert commands[..i] == commands;
    }

    /** The second loop of sendCommands: reads n replies in turn. */
    method ReadReplies(n: nat) returns (replies: seq<Reply>)
      requires Valid() && n <= outstanding
      modifies this
      ensures Valid()
      ensures written == old(written)
      ensures replies == old(pending)[..n] && pending == old(pending)[n..]
      ensures outstanding == old(outstanding) - n
      ensures trace == old(trace) + Reads(replies)
    {
      replies := [];
      var j := 0;
      while j < n
        invariant 0 <= j <= n
        invariant Valid()
        invariant written == old(written)
        invariant pending == old(pending)[j..]
        invariant replies == old(pending)[..j]
        invariant trace == old(trace) + Reads(replies)
      {
        var r := ReadReply();
        ReadsAppend(replies, r);
        replies := replies + [r];
        assert old(pending)[..j + 1] == old(pending)[..j] + [old(pending)[j]];
        j := j + 1;
      }
    }

    /** sendCommands: writes every command before reading any reply, then reads
        one reply per command. */
    method SendCommands(commands: seq<Command>) returns (replies: seq<Reply>)
      requires Valid()
      modifies this
      ensures Valid()
      ensures |replies| == |commands|
      ensures written == old(written) + commands
      ensures outstanding == old(outstanding)
      ensures replies + pending == old(pending) + Responses(server, old(written), commands)
      ensures old(outstanding) == 0 ==> replies == Responses(server, old(written), commands)
      ensures trace == old(trace) + Writes(commands) + Reads(replies)
    {
      WriteCommands(commands);
      ghost var all := pending;
      replies := ReadReplies(|commands|);
      assert replies + pending == all;
    }
  }

  /** Pipelining, seen from a caller: two execute<void> calls, then two reads,
      give the replies to the two commands in the order they were written. */
  method Pipeline(server: seq<Command> -> Reply, a: Command, b: Command) returns (ra: Reply, rb: Reply)
    ensures ra == server([a]) && rb == server([a, b])
  {
    var client := new Client(server);
    assert [] + [a] == [a] && [a] + [b] == [a, b];
    client.ExecuteVoid(a);
    assert client.pending == [server([a])];
    client.ExecuteVoid(b);
    assert client.pending == [server([a]), server([a, b])];
    ra := client.ReadReply();
    rb := client.ReadReply();
  }

  /** A type mismatch still consumes the reply: the next execute reads its own
      command's reply, not the rejected one. */
  method MismatchThenExecute(server: seq<Command> -> Reply, a: Command, b: Command) returns (first: Coerced, second: Coerced)
    requires server([a]) == BulkString(Some("foo"))
    ensures first == BadCastException
    ensures second == Coerce(server([a, b]), IntegerType)
  {
    var client := new Client(server);
    assert [] + [a] == [a];
    first := client.Execute(a, IntegerType);
    assert client.written + [b] == [a, b];
    second := client.Execute(b, IntegerType);
  }

  /** sendCommand behind an unread execute<void> reply returns that earlier
      reply, not its own; its own reply stays queued for the next read. */
  method SendCommandBehindPending(server: seq<Command> -> Reply, a: Command, b: Command) returns (sent: Reply, next: Reply)
    ensures sent == server([a])
    ensures next == server([a, b])
  {
    var client := new Client(server);
    assert [] + [a] == [a] && [a] + [b] == [a, b];
    client.ExecuteVoid(a);
    sent := client.SendCommand(b);
    next := client.ReadReply();
  }
}
