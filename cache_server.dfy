/**
 * The per-connection state machine of CachemanServer/CacheServer.cs: a
 * connection alternates between reading a command line and reading the
 * value body of a SET, executes each command against the shared store, and
 * writes reply lines. Any read or parse error disposes the connection,
 * after which nothing further happens on it.
 */
module Server {
  import opened Wrappers
  import opened Ascii
  import opened Network
  import opened Commands
  import opened Storage

  /** SocketState: what the connection is waiting to read. */
  datatype SocketState = NewConnection | ReadCommand | ReadValue

  /** The frame a connection extracts next: a line, or a value of exactly `valueTotalBytes` bytes. */
  function NextFrame(state: SocketState, valueTotalBytes: int, buffered: seq<bv8>): Extraction {
    if state == ReadValue then SplitValue(buffered, valueTotalBytes) else SplitLine(buffered)
  }

  /** A parsed command: every kind but SERVER_ERROR carries a key. */
  predicate WellFormed(cmd: Command) {
    cmd.action != ServerError ==> cmd.key.Some?
  }

  lemma ParsedIsWellFormed(line: string)
    requires ParseCommand(line).Success?
    ensures WellFormed(ParseCommand(line).value)
  {
  }

  // ---------------------------------------------------------------------
  // ExecCommand as a step function
  // ---------------------------------------------------------------------

  /** What ExecCommand leaves: the socket state, ValueTotalBytes, the table, and the bytes sent. */
  datatype Outcome = Outcome(state: SocketState, valueTotalBytes: int, values: map<string, Value>, reply: seq<bv8>)

  /**
   * ExecCommand on a connection in ReadCommand: GET replies with the value
   * or NOT_FOUND, DELETE with DELETED or NOT_FOUND, SET either refuses an
   * item larger than the capacity or switches to reading its value; VALUE
   * and SERVER_ERROR are ignored.
   */
  function Exec(cmd: Command, valueTotalBytes: int, m: map<string, Value>, now: int, capacity: nat): (r: Outcome)
    requires WellFormed(cmd)
    ensures r.state == ReadValue <==> cmd.action == Set && cmd.size <= capacity
    ensures r.state == ReadValue ==> r.valueTotalBytes == cmd.size && r.reply == []
    ensures r.values.Keys <= m.Keys
    ensures cmd.action != Get && cmd.action != Delete ==> r.values == m
    ensures r.reply == [] <==> cmd.action != Get && cmd.action != Delete && !(cmd.action == Set && cmd.size > capacity)
  {
    match cmd.action
    case Get =>
      var key := cmd.key.value;
      var reply := if key in m && !Expired(m[key], now) then ValueFrame(key, m[key].data)
                   else MessageFrame("NOT_FOUND");
      Outcome(ReadCommand, valueTotalBytes, AfterGet(m, key, now), reply)
    case Delete =>
      var key := cmd.key.value;
      Outcome(ReadCommand, valueTotalBytes, m - {key}, MessageFrame(if key in m then "DELETED" else "NOT_FOUND"))
    case Set =>
      if cmd.size > capacity then Outcome(ReadCommand, valueTotalBytes, m, ErrorFrame("Item too large"))
      else Outcome(ReadValue, cmd.size, m, [])
    case _ => Outcome(ReadCommand, valueTotalBytes, m, [])
  }

  /** The connection invariant: waiting for a value only after a SET that fits the capacity. */
  ghost predicate ConnectionOk(state: SocketState, command: Option<Command>, valueTotalBytes: int, capacity: nat) {
    && (state == ReadCommand || state == ReadValue)
    && (state == ReadValue ==>
          && command.Some? && command.value.action == Set && command.value.key.Some?
          && valueTotalBytes == command.value.size && valueTotalBytes <= capacity)
  }

  /**
   * A command step keeps the connection invariant, touches at most the
   * command's key, never adds bytes to the table, and leaves ReadCommand
   * only for a SET whose size fits.
   */
  lemma ExecPreservesInvariant(cmd: Command, vtb: int, m: map<string, Value>, now: int, capacity: nat)
    requires WellFormed(cmd)
    ensures var e := Exec(cmd, vtb, m, now, capacity);
      && ConnectionOk(e.state, Some(cmd), e.valueTotalBytes, capacity)
      && (e.state == ReadValue <==> cmd.action == Set && cmd.size <= capacity)
      && (forall k :: k in e.values ==> k in m && e.values[k].data == m[k].data)
      && (forall k :: (cmd.action == ServerError || k != cmd.key.value) ==>
            (k in e.values <==> k in m) && (k in m ==> e.values[k] == m[k]))
      && TotalBytes(e.values) <= TotalBytes(m)
  {
    match cmd.action
    case Get => AfterGetKeepsData(m, cmd.key.value, now);
    case Delete =>
      if cmd.key.value in m {
        TotalBytesRemove(m, cmd.key.value);
      } else {
        assert m - {cmd.key.value} == m;
      }
    case _ =>
  }

  /**
   * The reply to a GET hit is a VALUE line and the value frame: the client
   * reading it finds a VALUE command with the key and the data length, and
   * then exactly the stored data, with whatever followed left buffered.
   */
  lemma GetHitReplyReadsBack(m: map<string, Value>, key: string, now: int, capacity: nat, more: seq<bv8>)
    requires key in m && !Expired(m[key], now)
    requires IsAscii(key) && NoLineFeed(key) && ' ' !in key
    requires |m[key].data| <= Int64Max
    ensures var r := Exec(Command(Get, Some(key), -1, 0), 0, m, now, capacity).reply;
      && SplitLine(r + more).Extracted?
      && ParseCommand(Decode(SplitLine(r + more).frame)) == Success(Command(CommandType.Value, Some(key), -1, |m[key].data|))
      && SplitValue(SplitLine(r + more).rest, |m[key].data|) == Extracted(m[key].data, more)
  {
    var data := m[key].data;
    var header := ValueHeader(key, data);
    ValueHeaderIsLine(key, data);
    HeaderAndBodyRoundTrip(header, data, more);
    DecodeEncode(header);
    ParseValueHeader(key, data);
  }

  /** The reply to DELETE reads back as DELETED exactly when the key was stored. */
  lemma DeleteReplyReadsBack(m: map<string, Value>, key: string, now: int, capacity: nat, more: seq<bv8>)
    ensures var r := Exec(Command(Delete, Some(key), -1, 0), 0, m, now, capacity).reply;
      && SplitLine(r + more).Extracted?
      && SplitLine(r + more).rest == more
      && (Decode(SplitLine(r + more).frame) == "DELETED" <==> key in m)
  {
    var msg := if key in m then "DELETED" else "NOT_FOUND";
    MessageRoundTrip(msg, more);
    DecodeEncode(msg);
    assert "DELETED" != "NOT_FOUND";
  }

  // ---------------------------------------------------------------------
  // One pass of the state machine
  // ---------------------------------------------------------------------

  /** A connection and the table, as one pass of the state machine sees them. */
  datatype Snapshot = Snapshot(state: SocketState, command: Option<Command>, valueTotalBytes: int,
                               buffered: seq<bv8>, sent: seq<bv8>, disposed: bool, values: map<string, Value>)

  /**
   * One pass of StateMachine on an open connection: the frame the state asks
   * for is cut from the buffer and its callback runs. In ReadCommand a line
   * that does not parse disposes the connection and anything else is
   * executed; in ReadValue a malformed frame disposes the connection and a
   * value is stored under the current command's key, answered with STORED.
   * With no complete frame there is no pass.
   */
  ghost predicate Step(s: Snapshot, t: Snapshot, now: int, capacity: nat) {
    && !s.disposed && |s.buffered| > 0
    && match NextFrame(s.state, s.valueTotalBytes, s.buffered)
       case Pending => false
       case Malformed => s.state == ReadValue && t == s.(disposed := true)
       case Extracted(frame, rest) =>
         if s.state == ReadValue then
           && s.command.Some? && s.command.value.key.Some?
           && t.state == ReadCommand && t.command == s.command && t.valueTotalBytes == s.valueTotalBytes
           && t.buffered == rest && t.sent == s.sent + MessageFrame("STORED") && !t.disposed
           && Stored(s.values, s.command.value.key.value, frame, s.command.value.ttl, now, capacity, t.values)
         else
           match ParseCommand(Decode(frame))
           case Failure(_) => t == s.(buffered := rest, disposed := true)
           case Success(cmd) =>
             var e := Exec(cmd, s.valueTotalBytes, s.values, now, capacity);
             t == Snapshot(e.state, Some(cmd), e.valueTotalBytes, rest, s.sent + e.reply, false, e.values)
  }

  /** Consecutive snapshots are related by passes of the state machine. */
  ghost predicate Steps(run: seq<Snapshot>, now: int, capacity: nat) {
    forall i :: 0 <= i < |run| - 1 ==> Step(run[i], run[i + 1], now, capacity)
  }

  /** `tail` is what remains of `buffer` after bytes are cut from its front. */
  predicate IsSuffix(tail: seq<bv8>, buffer: seq<bv8>) {
    |tail| <= |buffer| && buffer[|buffer| - |tail|..] == tail
  }

  /** A pass only ever cuts a frame from the front of the buffer. */
  lemma StepConsumesFront(s: Snapshot, t: Snapshot, now: int, capacity: nat)
    requires Step(s, t, now, capacity)
    ensures IsSuffix(t.buffered, s.buffered)
  {
    match NextFrame(s.state, s.valueTotalBytes, s.buffered)
    case Malformed =>
    case Extracted(frame, rest) =>
      if s.state == ReadValue {
        SplitValueExtracted(s.buffered, s.valueTotalBytes, frame, rest);
      } else {
        SplitLineExtracted(s.buffered, frame, rest);
      }
      assert s.buffered == (frame + CrLf) + rest;
  }

  /**
   * Over a whole run the bytes left buffered are what the connection had,
   * with the frames the passes consumed cut from the front.
   */
  lemma {:induction false} StepsConsumeFront(run: seq<Snapshot>, now: int, capacity: nat)
    requires |run| >= 1 && Steps(run, now, capacity)
    ensures IsSuffix(run[|run| - 1].buffered, run[0].buffered)
    decreases |run|
  {
    if |run| > 1 {
      var init := run[..|run| - 1];
      assert Steps(init, now, capacity) by {
        forall i | 0 <= i < |init| - 1 ensures Step(init[i], init[i + 1], now, capacity) {
          assert Step(run[i], run[i + 1], now, capacity);
        }
      }
      StepsConsumeFront(init, now, capacity);
      StepConsumesFront(run[|run| - 2], run[|run| - 1], now, capacity);
    }
  }

  /** A connection that is closed or has no complete frame takes no pass. */
  lemma NoStepWhenIdle(s: Snapshot, t: Snapshot, now: int, capacity: nat)
    requires s.disposed || |s.buffered| == 0 || NextFrame(s.state, s.valueTotalBytes, s.buffered).Pending?
    ensures !Step(s, t, now, capacity)
  {
  }

  // ---------------------------------------------------------------------
  // The connection and the server
  // ---------------------------------------------------------------------

  /**
   * Client: the per-connection record. `sent` is everything written to the
   * socket so far; `disposed` records that the socket was shut down.
   */
  class Client {
    const helper: NetworkHelper
    var state: SocketState
    var currentCommand: Option<Command>
    var valueTotalBytes: int
    var sent: seq<bv8>
    var disposed: bool

    /** A newly accepted connection starts in ReadCommand with an empty buffer. */
    constructor Accept()
      ensures state == ReadCommand && currentCommand == None && valueTotalBytes == 0
      ensures sent == [] && !disposed
      ensures fresh(helper) && helper.data == []
    {
      helper := new NetworkHelper();
      state := ReadCommand;
      currentCommand := None;
      valueTotalBytes := 0;
      sent := [];
      disposed := false;
    }

    /** Dispose: shut the socket down; nothing else changes. */
    method Dispose()
      modifies this
      ensures disposed
      ensures state == old(state) && currentCommand == old(currentCommand)
      ensures valueTotalBytes == old(valueTotalBytes) && sent == old(sent)
    {
      disposed := true;
    }
  }

  /** The server: one store shared by all connections. */
  class CacheServer {
    const store: Store

    constructor (maxCacheMemory: nat)
      requires maxCacheMemory > 0
      ensures fresh(store) && store.Valid() && store.values == map[] && store.capacity == maxCacheMemory
    {
      store := new Store(maxCacheMemory);
    }

    ghost predicate Serves(c: Client)
      reads this, store, c
    {
      store.Valid() && ConnectionOk(c.state, c.currentCommand, c.valueTotalBytes, store.capacity)
    }

    /** Waiting for bytes: nothing buffered, or no complete frame for the current state. */
    ghost predicate Waiting(c: Client)
      reads c, c.helper
    {
      !c.disposed && (|c.helper.data| == 0 || NextFrame(c.state, c.valueTotalBytes, c.helper.data).Pending?)
    }

    /** ExecCommand: one step of the state machine for the command just parsed. */
    method ExecCommand(c: Client, now: int)
      requires Serves(c) && !c.disposed && c.state == ReadCommand
      requires c.currentCommand.Some? && WellFormed(c.currentCommand.value)
      modifies c, store
      ensures Serves(c) && !c.disposed && c.currentCommand == old(c.currentCommand)
      ensures var e := Exec(c.currentCommand.value, old(c.valueTotalBytes), old(store.values), now, store.capacity);
        && c.state == e.state && c.valueTotalBytes == e.valueTotalBytes
        && store.values == e.values && c.sent == old(c.sent) + e.reply
    {
      var cmd := c.currentCommand.value;
      if cmd.action == Get {
        var data := store.GetValue(cmd.key.value, now);
        if data.Some? {
          var wire := c.helper.SendValue(data.value, cmd.key.value);
          c.sent := c.sent + wire;
        } else {
          var wire := c.helper.SendMessage("NOT_FOUND");
          c.sent := c.sent + wire;
        }
        return;
      }
      if cmd.action == Delete {
        var found := store.RemoveValue(cmd.key.value);
        if found {
          var wire := c.helper.SendMessage("DELETED");
          c.sent := c.sent + wire;
        } else {
          var wire := c.helper.SendMessage("NOT_FOUND");
          c.sent := c.sent + wire;
        }
        return;
      }
      if cmd.action == Set {
        if cmd.size > store.capacity {
          var wire := c.helper.SendError("Item too large");
          c.sent := c.sent + wire;
          return;
        }
        c.valueTotalBytes := cmd.size;
        c.state := ReadValue;
        return;
      }
    }

    /**
     * ReadCommandCallback: a read error or a line that does not parse
     * disposes the connection; otherwise the command becomes current and
     * is executed.
     */
    method ReadCommandCallback(c: Client, line: Result<string, IoError>, now: int)
      requires Serves(c) && !c.disposed && c.state == ReadCommand
      modifies c, store
      ensures Serves(c)
      ensures (line.Failure? || ParseCommand(line.value).Failure?) ==>
                && c.disposed && c.sent == old(c.sent) && store.values == old(store.values)
                && c.state == old(c.state) && c.currentCommand == old(c.currentCommand)
                && c.valueTotalBytes == old(c.valueTotalBytes)
      ensures line.Success? && ParseCommand(line.value).Success? ==>
                var cmd := ParseCommand(line.value).value;
                var e := Exec(cmd, old(c.valueTotalBytes), old(store.values), now, store.capacity);
                && !c.disposed && c.currentCommand == Some(cmd)
                && c.state == e.state && c.valueTotalBytes == e.valueTotalBytes
                && store.values == e.values && c.sent == old(c.sent) + e.reply
    {
      if line.Failure? {
        c.Dispose();
        return;
      }
      var parsed := ParseCommand(line.value);
      if parsed.Failure? {
        c.Dispose();
        return;
      }
      c.currentCommand := Some(parsed.value);
      ExecCommand(c, now);
    }

    /**
     * ReadValueCallback: a read error disposes the connection; otherwise the
     * value is stored under the current command's key and TTL, STORED is
     * sent, and the connection goes back to ReadCommand.
     */
    method ReadValueCallback(c: Client, value: Result<seq<bv8>, IoError>, now: int)
      requires Serves(c) && !c.disposed && c.state == ReadValue
      requires value.Success? ==> |value.value| == c.valueTotalBytes
      modifies c, store
      ensures Serves(c) && c.currentCommand == old(c.currentCommand)
      ensures c.valueTotalBytes == old(c.valueTotalBytes)
      ensures value.Failure? ==>
                && c.disposed && c.sent == old(c.sent) && store.values == old(store.values)
                && c.state == old(c.state)
      ensures value.Success? ==>
                var cmd := c.currentCommand.value;
                && !c.disposed && c.state == ReadCommand
                && c.sent == old(c.sent) + MessageFrame("STORED")
                && cmd.key.value in store.values
                && store.values[cmd.key.value] == Storage.Value(value.value, cmd.ttl, now, now, 0)
                && (forall k :: k in store.values && k != cmd.key.value ==>
                      k in old(store.values) && store.values[k] == old(store.values)[k])
                && Stored(old(store.values), cmd.key.value, value.value, cmd.ttl, now, store.capacity, store.values)
    {
      if value.Failure? {
        c.Dispose();
        return;
      }
      var cmd := c.currentCommand.value;
      var ok, _ := store.SetValue(cmd.key.value, value.value, cmd.ttl, now);
      var wire := c.helper.SendMessage("STORED");
      c.sent := c.sent + wire;
      c.state := ReadCommand;
    }

    /** The connection and the table as one snapshot. */
    ghost function Snap(c: Client): Snapshot
      reads c, c.helper, store
    {
      Snapshot(c.state, c.currentCommand, c.valueTotalBytes, c.helper.data, c.sent, c.disposed, store.values)
    }

    /**
     * StateMachine: while the connection is open, extract the frame the
     * current state asks for (a line in ReadCommand, a value of
     * ValueTotalBytes bytes in ReadValue) and run its callback; stop and
     * wait for more bytes when none is complete. A malformed value frame
     * disposes the connection. `run` is the ghost record of the passes.
     */
    method StateMachine(c: Client, now: int) returns (ghost run: seq<Snapshot>)
      requires Serves(c)
      modifies c, c.helper, store
      ensures Serves(c)
      ensures |run| >= 1 && run[0] == old(Snap(c)) && run[|run| - 1] == Snap(c)
      ensures Steps(run, now, store.capacity)
      ensures old(c.disposed) ==> c.disposed && c.sent == old(c.sent) && store.values == old(store.values)
                                  && c.helper.data == old(c.helper.data)
      ensures old(c.sent) <= c.sent
      ensures c.disposed || Waiting(c)
    {
      run := [Snap(c)];
      if c.disposed {
        return;
      }
      while !c.disposed
        invariant Serves(c)
        invariant old(c.sent) <= c.sent
        invariant |run| >= 1 && run[0] == old(Snap(c)) && run[|run| - 1] == Snap(c)
        invariant Steps(run, now, store.capacity)
        decreases if c.disposed then 0 else 1, |c.helper.data|
      {
        if |c.helper.data| == 0 {
          return;
        }
        var passed;
        if c.state == ReadCommand {
          passed := CommandPass(c, now);
        } else {
          passed := ValuePass(c, now);
        }
        if !passed {
          return;
        }
        run := run + [Snap(c)];
      }
    }

    /**
     * The ReadCommand branch of one pass: read a line if one is complete and
     * hand it to ReadCommandCallback; otherwise report that none was passed.
     */
    method CommandPass(c: Client, now: int) returns (passed: bool)
      requires Serves(c) && !c.disposed && c.state == ReadCommand && |c.helper.data| > 0
      modifies c, c.helper, store
      ensures Serves(c) && old(c.sent) <= c.sent
      ensures !passed ==> Waiting(c) && Snap(c) == old(Snap(c))
      ensures passed ==> Step(old(Snap(c)), Snap(c), now, store.capacity)
                         && (c.disposed || |c.helper.data| < old(|c.helper.data|))
    {
      var line := c.helper.TryReadLine();
      if line.None? {
        return false;
      }
      ReadCommandCallback(c, Success(line.value), now);
      return true;
    }

    /**
     * The ReadValue branch of one pass: a complete value goes to
     * ReadValueCallback, a malformed one disposes the connection, and
     * otherwise no pass happens.
     */
    method ValuePass(c: Client, now: int) returns (passed: bool)
      requires Serves(c) && !c.disposed && c.state == ReadValue && |c.helper.data| > 0
      modifies c, c.helper, store
      ensures Serves(c) && old(c.sent) <= c.sent
      ensures !passed ==> Waiting(c) && Snap(c) == old(Snap(c))
      ensures passed ==> Step(old(Snap(c)), Snap(c), now, store.capacity)
                         && (c.disposed || |c.helper.data| < old(|c.helper.data|))
    {
      var value := c.helper.TryReadValue(c.valueTotalBytes);
      match value
      case Failure(_) =>
        c.Dispose();
        return true;
      case Success(None) =>
        return false;
      case Success(Some(v)) =>
        ReadValueCallback(c, Success(v), now);
        return true;
    }

    /**
     * A completed receive on a waiting connection: a zero-byte read shuts
     * the connection down; otherwise the bytes are appended to the buffer
     * and the state machine runs again. `run` starts from the buffer with
     * the chunk appended.
     */
    method ReadCallback(c: Client, chunk: seq<bv8>, now: int) returns (ghost run: seq<Snapshot>)
      requires Serves(c) && Waiting(c)
      modifies c, c.helper, store
      ensures Serves(c)
      ensures chunk == [] ==> c.disposed && c.sent == old(c.sent) && store.values == old(store.values) && run == []
      ensures chunk != [] ==>
                && |run| >= 1 && run[0] == old(Snap(c)).(buffered := old(c.helper.data) + chunk)
                && run[|run| - 1] == Snap(c) && Steps(run, now, store.capacity)
      ensures chunk != [] ==> old(c.sent) <= c.sent
      ensures c.disposed || Waiting(c)
    {
      if |chunk| == 0 {
        c.Dispose();
        return [];
      }
      c.helper.Receive(chunk);
      run := StateMachine(c, now);
    }
  }
}
